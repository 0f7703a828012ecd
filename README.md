# Turso3D core, modelled in Dafny

This project models five self-contained parts of the Turso3D engine and proves what each one promises.

- **Image resource** (`Turso3D/Resource/Image.cpp`). Modules `ImageLayout`, `ImagePixels` and `Images`.
  - The format tables, and the byte layout of a mip level (`CalculateDataSize`).
  - The mip-chain walk (`Level`), `SetSize` and `SetData`, and the 2x2 box filter of `GenerateMipImage`.
  - `BeginLoad` with its DDS, KTX and PVR header checks and format codes. This includes the KTX level loop with its 4-byte padding and the RGB to RGBA expansion of decoded images.
  - The guards of `Save` and `DecompressLevel`.
- **Drawable** (`Turso3D/Renderer/OctreeNode.h`, module `Renderer`).
  - The packed flag word and the 16-bit frame numbers used by the visibility tests.
  - The world bounding box and world transform, cached behind dirty flags.
  - The `OctreeNode` accessors that read the flag word.
- **Spatial node** (`Turso3D/Scene/SpatialNode.h`, module `Scene`): the world transform, cached behind a dirty flag and recomputed through the chain of spatial parents.
- **Vertex buffer** (`Turso3D/Graphics/VertexBuffer.cpp`, module `Graphics`).
  - Element offsets and vertex size, the attribute mask, and the range check of `SetData`.
  - The file-static record of the bound buffer and attributes that `Bind`, `Create` and `Release` keep. GL calls are appended to a log.
- **Random numbers** (`Turso3D/Math/Random.cpp`, module `Random`): the linear congruential `Rand` over a 32-bit seed.

Code that works by changing state is modelled as classes whose methods state their whole new state.
- `Image`, `Drawable`, `SpatialNode`, `VertexBuffer`, `BindingState` and `Generator` are such classes.
- Loops stay loops: `Level`, the mip filter, the RGB to RGBA copy, the KTX level loop, the offset loop of `Define` and the two loops of `Bind`.
- Each loop is proved against a function that specifies it.

Arithmetic and table lookups are functions, with lemmas about them. Matrices are terms of an uninterpreted product, so `WorldTransform` is proved to compute the product of the local transforms along the parent chain. Attribute bit masks are sets of bit positions.

## Model

| member | source | states |
|---|---|---|
| ImageLayout.ComponentsArePixelBytes | Turso3D/Resource/Image.cpp:28-92 | a format with 1 to 4 components is one of R8, RG8, RGBA8 and A8, with one byte per component |
| ImageLayout.PixelByteSizeMeansUncompressed | Turso3D/Resource/Image.cpp:61-92 | a format has a nonzero pixel byte size exactly when it is neither FMT_NONE nor compressed |
| ImageLayout.CalculateDataSize | Turso3D/Resource/Image.cpp:703-724 | in every branch the data size is depth slices, and the rows fit in a slice |
| ImageLayout.UncompressedLayout | Turso3D/Resource/Image.cpp:705-709 | uncompressed level: rows = height, rowSize = width * pixel bytes, sliceSize = rows * rowSize, dataSize = depth * sliceSize |
| ImageLayout.BlockCompressedLayout | Turso3D/Resource/Image.cpp:710-715 | DXT/ETC1 level: rows and blocks per row are the fewest 4-pixel blocks that cover the level; 8 bytes per block for DXT1/ETC1, 16 otherwise |
| ImageLayout.PvrtcLayout | Turso3D/Resource/Image.cpp:716-723 | PVRTC level: width padded to 16 (2 bpp) or 8 (4 bpp), rows to 8, slice = padded bits rounded up to whole bytes, rowSize * rows within the slice |
| ImageLayout.LevelDim | Turso3D/Resource/Image.cpp:650 | every level dimension `max(dim >> i, 1)` is at least 1 |
| ImageLayout.MipDim | Turso3D/Resource/Image.cpp:586 | every dimension `max(dim / 2, 1)` of a generated mip is at least 1 |
| ImageLayout.LevelDimIsMipOfPrevious | Turso3D/Resource/Image.cpp:586-650 | level i + 1 of the chain `Level` walks has the dimension `GenerateMipImage` makes from level i |
| ImageLayout.LevelDimZero | Turso3D/Resource/Image.cpp:650 | level 0 of a positive dimension is that dimension |
| ImageLayout.LevelDimShrinks | Turso3D/Resource/Image.cpp:650 | level dimensions never grow along the chain |
| ImageLayout.LevelsDoNotOverlap | Turso3D/Resource/Image.cpp:646-659 | level i ends at or before the offset of every later level |
| ImageLayout.FourCCRoundTrip | Turso3D/Resource/Image.cpp:17 | the little-endian bytes of a packed FourCC are its four characters in order |
| ImageLayout.WordBytesRoundTrip | Turso3D/Resource/Image.cpp:17 | packing the four bytes of any 32-bit word gives the word back |
| ImageLayout.DdsFormat | Turso3D/Resource/Image.cpp:268-284 | a DDS FourCC has a format exactly when it is DXT1, DXT3 or DXT5, and that format is DXT-compressed |
| ImageLayout.KtxFormat | Turso3D/Resource/Image.cpp:329-367 | a KTX internal format has a format exactly for the eight codes 0x83f1-0x83f3, 0x8d64 and 0x8c00-0x8c03, and that format is compressed |
| ImageLayout.PvrFormat | Turso3D/Resource/Image.cpp:415-453 | a PVR pixel format has a format exactly for 0, 1, 2, 3, 6, 7, 9 and 11, and that format is compressed |
| ImageLayout.KtxFormatRoundTrip | Turso3D/Resource/Image.cpp:330-362 | each compressed format has exactly one KTX code, and the lookup maps it back |
| ImageLayout.PvrFormatRoundTrip | Turso3D/Resource/Image.cpp:416-448 | each compressed format has exactly one PVR code, and the lookup maps it back |
| ImageLayout.DdsCodesAreFourCCs | Turso3D/Resource/Image.cpp:17-24 | the DXT1 and DXT5 codes are the bytes "DXT1" and "DXT5"; DXT2 and DXT4 are refused |
| ImagePixels.PixelIndexBound | Turso3D/Resource/Image.cpp:595-629 | every channel of every pixel of a width x height image lies inside its bytes |
| ImagePixels.PixelIndexInRow | Turso3D/Resource/Image.cpp:596-598 | pixel x of row y starts x pixels after the row pointer `y * width * comps` |
| ImagePixels.RgbaFromRgb | Turso3D/Resource/Image.cpp:481 | the RGBA buffer holds 4 bytes per pixel |
| ImagePixels.RgbaPixel | Turso3D/Resource/Image.cpp:484-489 | RGBA pixel i is RGB pixel i's three bytes in order, then 0xff |
| ImagePixels.StripAlphaOfRgba | Turso3D/Resource/Image.cpp:481-489 | dropping every fourth byte of the expansion gives back the RGB bytes, and every alpha byte is 0xff |
| Images.SingleLevelSpansData | Turso3D/Resource/Image.cpp:545-548 | the one level of an image that `SetSize` made starts at offset 0, has the image's size and spans all its bytes; there is no level 1 |
| Images.AlignedPositionIsAligned | Turso3D/Resource/Image.cpp:386-388 | after a level the stream is on a multiple of 4 less than 4 bytes on, or at the end; an aligned position stays |
| Images.ReadKtxLevel | Turso3D/Resource/Image.cpp:378-388 | one level reads no more bytes than its size word says and never past the stream, and the position after it is not before its bytes |
| Images.KtxFillSucceedsIff | Turso3D/Resource/Image.cpp:376-383 | the per-level check fails on some level exactly when the level sizes together exceed the buffer, and the buffer keeps its size |
| Images.KtxLoadAccepted | Turso3D/Resource/Image.cpp:369-383 | over a zeroed buffer of the remaining bytes less the size words, the level loop succeeds exactly when the file is accepted |
| Images.ReadKtxLevelData | Turso3D/Resource/Image.cpp:376-389 | the level loop returns and leaves in the buffer what the level-loop function computes |
| Images.ReadKtxLevelInto | Turso3D/Resource/Image.cpp:378-388 | one turn reads the size word, refuses a level that does not fit, otherwise copies the level's bytes at `dataOffset` and moves to the aligned next position; a turn that fits is one step of the level-loop function, and one that does not ends it with failure |
| Images.CopyBytes | Turso3D/Resource/Image.cpp:384 | the read writes the level's bytes at the offset and leaves every other byte as it was |
| Images.Image.constructor | Turso3D/Resource/Image.cpp:245-250 | a new image has no data, size 0, FMT_NONE and one level |
| Images.Image.SetSize | Turso3D/Resource/Image.cpp:530-549 | the same size and format, a non-positive dimension or a format without a pixel byte size changes nothing; otherwise a new zeroed buffer of x*y*z*pixelBytes bytes, the new size and format, and one level |
| Images.Image.SetSize2D | Turso3D/Resource/Image.cpp:525-528 | the two-dimensional overload is `SetSize` with depth 1 |
| Images.Image.SetData | Turso3D/Resource/Image.cpp:551-558 | an uncompressed image gets the first x*y*z*pixelBytes bytes of the source; a compressed image's data is unchanged |
| Images.Image.Level | Turso3D/Resource/Image.cpp:638-661 | an index at or past numLevels gives the empty level; otherwise the walk returns the level's offset (sum of earlier level sizes), dimensions and layout |
| Images.Image.GenerateMipImage | Turso3D/Resource/Image.cpp:578-636 | fails exactly when the component count is not 1..4; otherwise dest is half the size (at least 1) in the same format, has one level when `SetSize` reallocated it and its old level count otherwise, and every output channel is the box filter of its 2x2 input block |
| Images.MipBytesAreMipSlice | Turso3D/Resource/Image.cpp:593-633 | the specification bytes of the output slice hold the box filter of every output pixel |
| Images.FilterFirstSlice | Turso3D/Resource/Image.cpp:595-603 | the row loop writes the whole first output slice and nothing after it |
| Images.FilterRow | Turso3D/Resource/Image.cpp:600-602 | the pixel loop writes exactly the bytes of output row y |
| Images.FilterPixel | Turso3D/Resource/Image.cpp:626-629 | each channel of an output pixel is the sum of that channel of the 2x2 block, shifted right by 2 |
| Images.ExpandRgbToRgba | Turso3D/Resource/Image.cpp:481-489 | the conversion loop produces exactly the RGBA expansion of the RGB bytes |
| Images.Image.SavePixelByteSize | Turso3D/Resource/Image.cpp:502-516 | `Save` proceeds exactly for an uncompressed image with data and a pixel byte size of 1 to 4 |
| Images.Image.SaveReadsWithinData | Turso3D/Resource/Image.cpp:519 | the PNG encoder's `size.x * size.y` pixels lie inside the data of an image `Save` accepts |
| Images.Image.DecompressLevelAccepts | Turso3D/Resource/Image.cpp:665-698 | `DecompressLevel` proceeds exactly for a non-null destination, an existing level and a compressed format, and then the level exists |
| Images.Image.BeginLoad | Turso3D/Resource/Image.cpp:256-498 | the load succeeds for DDS exactly on a known FourCC, for KTX exactly when the file is accepted, for PVR exactly when the header checks and format pass, otherwise exactly when decoding succeeds; in each branch the loaded format, size, level count and data are those of the file; an unknown FourCC, a rejected KTX or PVR header or an undecodable file changes nothing; an unknown KTX or PVR format only resets the format to FMT_NONE |
| Images.Image.LoadDds | Turso3D/Resource/Image.cpp:263-290 | an unknown FourCC fails with nothing changed; otherwise the format, the payload as data, the size with depth at least 1 and the level count (1 when 0) |
| Images.Image.LoadKtx | Turso3D/Resource/Image.cpp:292-389 | the header checks fail with nothing changed; an unknown format fails with the format FMT_NONE; otherwise format, size and level count are set and the data is what the level loop leaves in a new buffer |
| Images.Image.LoadPvr | Turso3D/Resource/Image.cpp:391-462 | the header checks fail with nothing changed; an unknown format fails with the format FMT_NONE; otherwise format, payload, size and level count |
| Images.Image.LoadDecoded | Turso3D/Resource/Image.cpp:464-494 | a decoded image is sized as decoded in the format of its component count, and holds its pixels, expanded to RGBA when there are 3 components |
| Renderer.FlagLayout | Turso3D/Renderer/OctreeNode.h:48-65 | the geometry types are the four values of the two low bits; every other flag is a single bit outside them and apart from the others |
| Renderer.SetFlagEffect | Turso3D/Renderer/OctreeNode.h:159-163 | setting a nonzero flag makes it test true, and every other bit is unchanged |
| Renderer.ClearFlagEffect | Turso3D/Renderer/OctreeNode.h:164-165 | clearing a flag makes it test false, and every other bit is unchanged |
| Renderer.PreviousFrame | Turso3D/Renderer/OctreeNode.h:115-122 | the frame `WasInView` compares with is never 0: frame - 1, or 65535 for frames 0 and 1 |
| Renderer.PreviousOfNextFrame | Turso3D/Renderer/OctreeNode.h:115-122 | along a frame counter that skips 0, the previous frame is the one the counter came from |
| Renderer.Drawable.constructor | Turso3D/Renderer/OctreeNode.h:69 | a drawable of an owner with the given flags and box, never yet in view |
| Renderer.Drawable.SetFlag | Turso3D/Renderer/OctreeNode.h:159-168 | the flag word is the old one with `bit` ORed in or cleared, and `TestFlag` of a nonzero `bit` then answers `enable` |
| Renderer.Drawable.SeenLastFrame | Turso3D/Renderer/OctreeNode.h:113-122 | a drawable in view in a frame is exactly one that `WasInView` reports in the next frame |
| Renderer.NodeFlagsIndependent | Turso3D/Renderer/OctreeNode.h:219-223 | setting or clearing the static, cast-shadows or update-invisible flag leaves the bits the other two accessors read |
| Renderer.Drawable.WorldBoundingBox | Turso3D/Renderer/OctreeNode.h:136-143 | a dirty box is replaced by the update and the flag cleared; a clean box is returned unchanged; the flag is clear afterwards |
| Renderer.Drawable.WorldTransform | Turso3D/Renderer/OctreeNode.h:147-156 | when dirty, clear the flag and return the owner's world transform; otherwise return the cached matrix and change nothing |
| Renderer.OctreeNode.constructor | Turso3D/Renderer/OctreeNode.h:24-35 | a node that renders through the given drawable |
| Renderer.OctreeNode.WorldBoundingBox | Turso3D/Renderer/OctreeNode.h:243 | the drawable's box, brought up to date: a dirty box is replaced by the update and only the dirty flag is cleared; a clean box is returned and the flags stay |
| Renderer.OctreeNode.SeenLastFrame | Turso3D/Renderer/OctreeNode.h:238-240 | a node in view in a frame is exactly one that `WasInView` reports in the next frame |
| Scene.SpatialNode.constructor | Turso3D/Scene/SpatialNode.h:21 | a node without a spatial parent, with its world transform dirty |
| Scene.SpatialNode.SpatialParent | Turso3D/Scene/SpatialNode.h:81 | the result is non-null exactly when the parent is spatial, and is then on the node's chain, valid and closer to the top, which is what `World` and `WorldTransform` recurse on |
| Scene.SpatialNode.WorldIsChainProduct | Turso3D/Scene/SpatialNode.h:111-122 | the world transform is the product of the local transforms down the chain of spatial parents, topmost first |
| Scene.SpatialNode.WorldTransform | Turso3D/Scene/SpatialNode.h:111-122 | returns and caches the world transform and clears the dirty flag; a dirty node brings its spatial parent up to date first; a clean node returns its cache and changes nothing |
| Graphics.ElementTypeSize | Turso3D/Graphics/VertexBuffer.cpp:25-43 | every element type takes a positive multiple of 4 bytes |
| Graphics.AttributeMaskMembers | Turso3D/Graphics/VertexBuffer.cpp:177-186 | the mask holds `baseAttributeIndex[semantic] + index` of every element and nothing else |
| Graphics.OffsetsPack | Turso3D/Graphics/VertexBuffer.cpp:73-79 | the first element is at offset 0, each next one starts where the one before ends, and the last ends at the vertex size |
| Graphics.LayoutKeepsShape | Turso3D/Graphics/VertexBuffer.cpp:73-81 | laying out changes only offsets: vertex size, mask and their range stay |
| Graphics.LayoutIdempotent | Turso3D/Graphics/VertexBuffer.cpp:73-79 | a laid-out vertex lays out the same way again |
| Graphics.MaskFits | Turso3D/Graphics/VertexBuffer.cpp:145-146 | elements whose attributes fit 32 bits give a mask of bit positions |
| Graphics.DisableCallsInOrder | Turso3D/Graphics/VertexBuffer.cpp:161-170 | the disabling loop disables only attributes of the set, each once, in increasing order |
| Graphics.DisableCallsComplete | Turso3D/Graphics/VertexBuffer.cpp:161-170 | the disabling loop disables every attribute of the set |
| Graphics.DisableCallsBeyond | Turso3D/Graphics/VertexBuffer.cpp:164-169 | positions past the highest attribute of the set add no calls, so stopping when no bits remain is the same as going to 32 |
| Graphics.BindingState.constructor | Turso3D/Graphics/VertexBuffer.cpp:10-12 | nothing is bound at start-up |
| Graphics.VertexBuffer.constructor | Turso3D/Graphics/VertexBuffer.cpp:46-53 | no GL buffer, no vertices, vertex size 0, no attributes, default usage |
| Graphics.VertexBuffer.CalculateAttributeMask | Turso3D/Graphics/VertexBuffer.cpp:177-186 | the loop's mask holds exactly the attribute of each element |
| Graphics.VertexBuffer.LayOut | Turso3D/Graphics/VertexBuffer.cpp:73-79 | the loop gives each element the sizes of those before it as its offset, and the vertex size is their total |
| Graphics.VertexBuffer.Define | Turso3D/Graphics/VertexBuffer.cpp:60-84 | releases the old buffer (its delete call, and the bound pointers to it cleared); no vertices or no elements fail with the layout, usage and validity as they were; otherwise the elements are laid out with their mask and the buffer is created, succeeding when GL names it, with the generate, bind and upload calls logged, this buffer bound and no longer the attribute source |
| Graphics.VertexBuffer.SetData | Turso3D/Graphics/VertexBuffer.cpp:86-110 | fails on null data or a range past the last vertex (the corrected check, see Findings), with nothing changed; otherwise binds and uploads the whole buffer, a discarded buffer and the range, or the range |
| Graphics.RangeCheck | Turso3D/Graphics/VertexBuffer.cpp:92 | the range check accepts exactly the ranges that end at or before the last vertex |
| Graphics.RangeCheckWraps | Turso3D/Graphics/VertexBuffer.cpp:92 | the check as written, summed modulo 2^64, accepts first vertex 2^64-1 with one vertex in a 10-vertex buffer, which the corrected check refuses |
| Graphics.RangeCheckAgrees | Turso3D/Graphics/VertexBuffer.cpp:92 | when the sum does not wrap, the check as written and the corrected check agree |
| Graphics.VertexBuffer.Bind | Turso3D/Graphics/VertexBuffer.cpp:112-175 | no GL buffer changes nothing; an empty mask only binds the buffer; a bound request changes nothing; otherwise the state becomes the masked request, with the enabling, pointing and disabling calls |
| Graphics.VertexBuffer.Rebind | Turso3D/Graphics/VertexBuffer.cpp:135-174 | binds the buffer, points the requested attributes, disables the old ones no longer used and records the new state |
| Graphics.VertexBuffer.PointAttributes | Turso3D/Graphics/VertexBuffer.cpp:140-159 | the element loop uses exactly the elements' attributes in the request and makes their enable and pointer calls in element order |
| Graphics.VertexBuffer.DisableUnused | Turso3D/Graphics/VertexBuffer.cpp:161-170 | the shifting loop makes exactly the disabling calls for the set, in increasing order |
| Graphics.VertexBuffer.Create | Turso3D/Graphics/VertexBuffer.cpp:188-205 | a failed generate leaves the bindings; otherwise binds, uploads numVertices * vertexSize bytes and stops being the attribute source |
| Graphics.VertexBuffer.Release | Turso3D/Graphics/VertexBuffer.cpp:207-219 | deletes the GL buffer when there is one and clears only the bound pointers that referred to it; the bound attributes stay |
| Random.Output | Turso3D/Math/Random.cpp:20 | the result is in 0..32767 and is bits 16 to 30 of the new seed |
| Random.Outputs | Turso3D/Math/Random.cpp:17-21 | n calls give n results, each in 0..32767 |
| Random.OutputsSplit | Turso3D/Math/Random.cpp:17-21 | determinism: the first n + m results are the first n, then those of a generator re-seeded with the seed reached after n calls |
| Random.OutputsAt | Turso3D/Math/Random.cpp:17-21 | result i is the output of the seed reached after i + 1 calls |
| Random.FirstOutputs | Turso3D/Math/Random.cpp:5-20 | from the initial seed 1 the first five results are 41, 18467, 6334, 26500 and 19169, the MSVC `rand()` sequence |
| Random.Generator.constructor | Turso3D/Math/Random.cpp:5 | the seed starts at 1 |
| Random.Generator.SetRandomSeed | Turso3D/Math/Random.cpp:7-15 | `RandomSeed()` then returns the seed set |
| Random.Generator.Rand | Turso3D/Math/Random.cpp:17-21 | the seed becomes `NextSeed` of the old one, seed * 214013 + 2531011 modulo 2^32, and the result is the output of the new seed |

## Findings

| source | as written | input that shows it | evidently intended | confidence | as-written member | corrected member |
|---|---|---|---|---|---|---|
| Turso3D/Graphics/VertexBuffer.cpp:92 | `firstVertex + numVertices_ > numVertices` is summed in `size_t` and wraps around | firstVertex = 2^64-1, numVertices_ = 1, numVertices = 10: the sum wraps to 0 and the range is accepted | refuse every range that ends past the last vertex | not executed | Graphics.RangeCheckWraps | Graphics.RangeCheck |

## Left out

- Streams and files: the header fields of a DDS, KTX or PVR file arrive already read, as a datatype. The DDS header is read by copying a raw struct, and that copy is not modelled.
- Stream: a read copies only the bytes the stream still holds, and moving the position stops at the end of the stream. Stream.h is not part of this model, so these are assumptions about it.
- ReadWord: a size word that the stream does not hold in full leaves the C++ variable partly unset; the model reads it as 0.
- Images.Image.LoadKtx: requires the remaining bytes to hold one size word per level. The source computes `dataSize` in `size_t` and wraps around to a huge allocation when they do not.
- Images.Image.BeginLoad: requires, for a KTX file with a supported header and format, the same one size word per level in the remaining bytes as `LoadKtx`; its KTX acceptance is stated over that domain only, because of the same `size_t` wrap at Turso3D/Resource/Image.cpp:370.
- Images.Image.GenerateMipImage: requires width and height of at least 2 for the formats it filters. The source reads row `y * 2 + 1` and column `x * 2 + 1` unconditionally. A single-slice image that is 1 pixel high, or 1 pixel wide with an even height, makes it read past the buffer. The requires also excludes inputs that the source filters inside the buffer, by reading the neighbouring row or slice in place of the missing one. Among them are an image 1 pixel wide with an odd height, where column 1 is the first pixel of the next row, and a 1-pixel-high image at least 2 pixels wide with 2 or more slices, where row 1 is the first row of the next slice. The model does not give the result for those inputs.
- Images.Image.GenerateMipImage: requires the destination to be another image. The source accepts `img.GenerateMipImage(img)`; there `dest.SetSize` replaces the data and size before the input pointer is taken, so the filter reads the new, smaller zeroed buffer and over-reads it.
- Images.Image.GenerateMipImage: filters the first slice only, as the source does for 3D images. The later slices are zero when `SetSize` reallocated the destination; when it returned early they keep the destination's old bytes.
- Images.Image.SetData: the byte count `size.x * size.y * size.z * PixelByteSize()` at Turso3D/Resource/Image.cpp:554 is an `int` product that can overflow; the model's product is unbounded.
- Images.Image.SetSize: the allocation size `newSize.x * newSize.y * newSize.z * pixelByteSizes[newFormat]` at Turso3D/Resource/Image.cpp:545 is a signed `int` product that can overflow; the model allocates the unbounded product.
- Images.Image.Level: `size.x >> i` at Turso3D/Resource/Image.cpp:650 is undefined for i of 32 or more, which a DDS `dwMipMapCount` can reach; the model shifts arithmetically and gives dimension 1, where x86 would mask the count to five bits.
- Graphics.VertexBuffer.SetData: models the corrected range check; the wrap-around of the source's `size_t` sum is exhibited by a separate lemma (see Findings).
- The stb_image decoder and PNG encoder, and the DXT, ETC1 and PVRTC decompressors, are foreign code. The decoder's result is an input. `Save` and `DecompressLevel` are modelled by their guards.
- Image.h, Node.h, VertexBuffer.h and Stream.h are not part of this model.
  - `IsCompressed` is taken as `format >= FMT_DXT1`, and `Components()` as the `components` table.
  - The node flags `FLAG_SPATIALPARENT` and `FLAG_WORLDTRANSFORMDIRTY` are boolean fields.
  - `ElementTypeSize` is derived from the element tables (4-byte int and float components, a 4-byte UBYTE4).
- Graphics.AttributesFit: `Define` requires every element's attribute to be below 32. The source shifts `1 << attributeIdx`, which is undefined from 32 on.
- Graphics: the attribute masks are sets of bit positions, not 32-bit words.
- Graphics.VertexBuffer.Bind: the `normalized` flag and the GL type enum of `glVertexAttribPointer` are not recorded. The enum value of `SEM_COLOR` is defined outside the modelled files.
- Graphics.VertexBytes: `size_t` overflow of `numVertices * vertexSize` is not modelled.
- Graphics.VertexBuffer.Define: `generated` stands for the name `glGenBuffers` returns, and GL's own state is not modelled.
- Graphics.VertexBuffer.Rebind, PointAttributes and DisableUnused are the three parts of `Bind` after its early returns, split out so each is proved on its own.
- Renderer.Drawable.WorldBoundingBox: `OnWorldBoundingBoxUpdate` is virtual, so its result is a parameter.
- Renderer: `worldTransform` is taken to point at the owner's cached matrix, because `SetOwner` is not modelled.
- Renderer: the octree, the culler, the batch queue and the worker-thread callbacks are not modelled.
- Scene: matrices and vectors are uninterpreted terms, with no floating point. The setters, and the dirty marking of `OnTransformChanged`, are not modelled. `Coherent` states what they must keep: every clean cache holds its node's world transform.
- The constructors are modelling conveniences: their bodies are in files this model does not cover, or they set only fields the model keeps.
- Random: `RandStandardNormal` is floating-point arithmetic and is left out.
