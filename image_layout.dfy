/**
 * Pure arithmetic of Turso3D/Resource/Image.cpp: the pixel-format tables, the byte layout of
 * one mip level (`CalculateDataSize`), the dimensions and offsets of the mip chain, and the
 * format codes of the DDS, KTX and PVR containers.
 */
module ImageLayout {
  import opened Wrappers

  /** A byte of image or file data. */
  type uint8 = x: int | 0 <= x < 256

  /** Values of a C++ `unsigned` (32 bits), as read from container headers. */
  type uint32 = x: int | 0 <= x < 0x1_0000_0000

  /**
   * `ImageFormat`, by its position in the enumeration. The tables below and the comparisons
   * in `CalculateDataSize` and `IsCompressed` depend on this order.
   */
  type ImageFormat = f: nat | f < 29

  const FmtNone: ImageFormat := 0
  const FmtR8: ImageFormat := 1
  const FmtRg8: ImageFormat := 2
  const FmtRgba8: ImageFormat := 3
  const FmtA8: ImageFormat := 4
  const FmtD24S8: ImageFormat := 20
  const FmtDxt1: ImageFormat := 21
  const FmtDxt3: ImageFormat := 22
  const FmtDxt5: ImageFormat := 23
  const FmtEtc1: ImageFormat := 24
  const FmtPvrtcRgb2Bpp: ImageFormat := 25
  const FmtPvrtcRgba2Bpp: ImageFormat := 26
  const FmtPvrtcRgb4Bpp: ImageFormat := 27
  const FmtPvrtcRgba4Bpp: ImageFormat := 28

  /** `Image::components`: colour components per pixel of the 8-bit formats, 0 elsewhere. */
  const Components: seq<nat> :=
    [0, 1, 2, 4, 1, 0, 0, 0, 0, 0, 0, 0, 0, 0, 0, 0, 0, 0, 0, 0, 0, 0, 0, 0, 0, 0, 0, 0, 0]

  /** `Image::pixelByteSizes`: bytes per pixel, 0 for `FmtNone` and every compressed format. */
  const PixelByteSizes: seq<nat> :=
    [0, 1, 2, 4, 1, 2, 4, 8, 2, 4, 8, 4, 8, 12, 16, 4, 8, 16, 2, 4, 4, 0, 0, 0, 0, 0, 0, 0, 0]

  /** `componentsToFormat`: the format of a decoded image with the given component count. */
  const ComponentsToFormat: seq<ImageFormat> := [FmtNone, FmtR8, FmtRg8, FmtRgba8, FmtRgba8]

  predicate IsCompressed(format: ImageFormat)
  {
    format >= FmtDxt1
  }

  /** The block-compressed formats (4x4 pixel blocks): DXT1, DXT3, DXT5 and ETC1. */
  predicate IsBlockCompressed(format: ImageFormat)
  {
    FmtDxt1 <= format < FmtPvrtcRgb2Bpp
  }

  /** The tables agree on the formats the mip generator supports: one byte per component. */
  lemma ComponentsArePixelBytes(format: ImageFormat)
    requires 1 <= Components[format] <= 4
    ensures PixelByteSizes[format] == Components[format]
    ensures format in {FmtR8, FmtRg8, FmtRgba8, FmtA8}
  {
  }

  /** A format has a pixel byte size exactly when it is neither `FMT_NONE` nor compressed. */
  lemma PixelByteSizeMeansUncompressed(format: ImageFormat)
    ensures PixelByteSizes[format] > 0 <==> format != FmtNone && !IsCompressed(format)
  {
  }

  function Max(a: int, b: int): int
  {
    if a >= b then a else b
  }

  function Min(a: int, b: int): int
  {
    if a <= b then a else b
  }

  /** The rows, row size, slice size and total data size of one image level, in bytes. */
  datatype LevelLayout = LevelLayout(rows: nat, rowSize: nat, sliceSize: nat, dataSize: nat)

  /** Bytes of one 4x4 block: 8 for DXT1 and ETC1, 16 for DXT3 and DXT5. */
  function BlockBytes(format: ImageFormat): nat
  {
    if format == FmtDxt1 || format == FmtEtc1 then 8 else 16
  }

  /** Bits per pixel of a PVRTC format. */
  function PvrtcBitsPerPixel(format: ImageFormat): nat
  {
    if format < FmtPvrtcRgb4Bpp then 2 else 4
  }

  /** `Image::CalculateDataSize` for a level of the given dimensions. */
  function CalculateDataSize(width: nat, height: nat, depth: nat, format: ImageFormat): (r: LevelLayout)
    ensures r.dataSize == depth * r.sliceSize
    ensures r.rows * r.rowSize <= r.sliceSize
  {
    if format < FmtDxt1 then UncompressedSize(width, height, depth, PixelByteSizes[format])
    else if format < FmtPvrtcRgb2Bpp then BlockSize(width, height, depth, BlockBytes(format))
    else PvrtcSize(width, height, depth, PvrtcBitsPerPixel(format))
  }

  function UncompressedSize(width: nat, height: nat, depth: nat, pixelByteSize: nat): LevelLayout
  {
    var rowSize: nat := width * pixelByteSize;
    var sliceSize: nat := height * rowSize;
    LevelLayout(height, rowSize, sliceSize, depth * sliceSize)
  }

  function BlockSize(width: nat, height: nat, depth: nat, blockBytes: nat): LevelLayout
  {
    var rows: nat := (height + 3) / 4;
    var rowSize: nat := ((width + 3) / 4) * blockBytes;
    var sliceSize: nat := rows * rowSize;
    LevelLayout(rows, rowSize, sliceSize, depth * sliceSize)
  }

  function PvrtcSize(width: nat, height: nat, depth: nat, bitsPerPixel: nat): LevelLayout
  {
    var dataWidth: nat := Max(width, if bitsPerPixel == 2 then 16 else 8);
    var rows: nat := Max(height, 8);
    var bits: nat := dataWidth * depth * rows * bitsPerPixel;
    var sliceSize: nat := (bits + 7) / 8;
    LevelLayout(rows, sliceSize / rows, sliceSize, depth * sliceSize)
  }

  /** Uncompressed levels are tightly packed pixels: the data is width * height * depth pixels. */
  lemma UncompressedLayout(width: nat, height: nat, depth: nat, format: ImageFormat)
    requires !IsCompressed(format)
    ensures var l := CalculateDataSize(width, height, depth, format);
      && l.rows == height
      && l.rowSize == width * PixelByteSizes[format]
      && l.sliceSize == width * height * PixelByteSizes[format]
      && l.dataSize == width * height * depth * PixelByteSizes[format]
  {
    var p := PixelByteSizes[format];
    assert height * (width * p) == width * height * p;
    assert depth * (width * height * p) == width * height * depth * p;
  }

  /** `n` blocks of 4 are the fewest that cover `pixels` pixels. */
  predicate CoversByFours(blocks: nat, pixels: nat)
  {
    pixels <= 4 * blocks && (blocks == 0 || 4 * (blocks - 1) < pixels)
  }

  /**
   * Block-compressed levels store whole 4x4 blocks: the rows of blocks and the blocks per row
   * are the fewest that cover the level, each block taking `BlockBytes(format)` bytes.
   */
  lemma BlockCompressedLayout(width: nat, height: nat, depth: nat, format: ImageFormat)
    requires IsBlockCompressed(format)
    ensures var l := CalculateDataSize(width, height, depth, format);
      && CoversByFours(l.rows, height)
      && l.rowSize % BlockBytes(format) == 0
      && CoversByFours(l.rowSize / BlockBytes(format), width)
      && l.sliceSize == l.rows * l.rowSize
      && l.dataSize == depth * l.sliceSize
  {
    var blocksAcross := (width + 3) / 4;
    assert blocksAcross * BlockBytes(format) / BlockBytes(format) == blocksAcross;
  }

  /**
   * PVRTC levels are padded to at least 16x8 (2 bits per pixel) or 8x8 (4 bits per pixel)
   * pixels and rounded up to whole bytes.
   */
  lemma PvrtcLayout(width: nat, height: nat, depth: nat, format: ImageFormat)
    requires format >= FmtPvrtcRgb2Bpp
    ensures var l := CalculateDataSize(width, height, depth, format);
      var bpp := PvrtcBitsPerPixel(format);
      var dataWidth := Max(width, if bpp == 2 then 16 else 8);
      && l.rows == Max(height, 8)
      && dataWidth * depth * l.rows * bpp <= 8 * l.sliceSize < dataWidth * depth * l.rows * bpp + 8
      && l.rowSize * l.rows <= l.sliceSize
      && l.dataSize == depth * l.sliceSize
  {
  }

  /** `x >> i` on a C++ `int`: an arithmetic shift, which rounds toward minus infinity. */
  function Shr(x: int, i: nat): int
  {
    if i == 0 then x else Shr(x, i - 1) / 2
  }

  /** One dimension of mip level `i`: `max(dim >> i, 1)`. */
  function LevelDim(dim: int, i: nat): (r: nat)
    ensures r >= 1
  {
    Max(Shr(dim, i), 1)
  }

  /** One dimension of the image `GenerateMipImage` produces: `max(dim / 2, 1)`. */
  function MipDim(dim: int): (r: nat)
    ensures r >= 1
  {
    Max(dim / 2, 1)
  }

  /**
   * The mip chain that `Level` walks is the chain `GenerateMipImage` produces: level `i + 1`
   * has the dimension the mip generator makes from level `i`.
   */
  lemma LevelDimIsMipOfPrevious(dim: int, i: nat)
    ensures LevelDim(dim, i + 1) == MipDim(LevelDim(dim, i))
  {
  }

  /** Level 0 of an image with a positive dimension has that dimension. */
  lemma LevelDimZero(dim: int)
    requires dim >= 1
    ensures LevelDim(dim, 0) == dim
  {
  }

  /** Mip dimensions never grow along the chain. */
  lemma {:induction false} LevelDimShrinks(dim: int, i: nat, j: nat)
    requires i <= j
    ensures LevelDim(dim, j) <= LevelDim(dim, i)
    decreases j - i
  {
    if i < j {
      LevelDimShrinks(dim, i, j - 1);
      assert Shr(dim, j) == Shr(dim, j - 1) / 2;
    }
  }

  /** The layout of level `i` of an image of the given size and format. */
  function LevelLayoutAt(width: int, height: int, depth: int, format: ImageFormat, i: nat): LevelLayout
  {
    CalculateDataSize(LevelDim(width, i), LevelDim(height, i), LevelDim(depth, i), format)
  }

  /** Byte offset of level `i` in the image data: the sizes of levels `0 .. i - 1` added up. */
  function LevelOffset(width: int, height: int, depth: int, format: ImageFormat, i: nat): nat
  {
    if i == 0 then 0
    else LevelOffset(width, height, depth, format, i - 1) + LevelLayoutAt(width, height, depth, format, i - 1).dataSize
  }

  /** Levels are laid out one after another without overlapping: later levels start later. */
  lemma {:induction false} LevelsDoNotOverlap(width: int, height: int, depth: int, format: ImageFormat, i: nat, j: nat)
    requires i < j
    ensures LevelOffset(width, height, depth, format, i) + LevelLayoutAt(width, height, depth, format, i).dataSize
            <= LevelOffset(width, height, depth, format, j)
    decreases j - i
  {
    if i + 1 < j {
      LevelsDoNotOverlap(width, height, depth, format, i, j - 1);
    }
  }

  // ---------------------------------------------------------------------------------------
  // Container format codes

  /** `MAKEFOURCC`: four characters packed little-endian into one 32-bit word. */
  function MakeFourCC(ch0: uint8, ch1: uint8, ch2: uint8, ch3: uint8): uint32
  {
    ch0 + ch1 * 0x100 + ch2 * 0x1_0000 + ch3 * 0x100_0000
  }

  /** A 32-bit word as it is stored in a little-endian file: byte `k` is `(w >> 8k) & 0xff`. */
  function WordBytes(w: uint32): (bytes: seq<uint8>)
    ensures |bytes| == 4
  {
    var q1 := w / 0x100;
    var q2 := q1 / 0x100;
    [w % 0x100, q1 % 0x100, q2 % 0x100, q2 / 0x100]
  }

  /** A four-character code read back from its packed word gives the same characters. */
  lemma FourCCRoundTrip(ch0: uint8, ch1: uint8, ch2: uint8, ch3: uint8)
    ensures WordBytes(MakeFourCC(ch0, ch1, ch2, ch3)) == [ch0, ch1, ch2, ch3]
  {
    var w := MakeFourCC(ch0, ch1, ch2, ch3);
    assert w == ch0 + (ch1 + (ch2 + ch3 * 0x100) * 0x100) * 0x100;
    assert w / 0x100 == ch1 + (ch2 + ch3 * 0x100) * 0x100;
    assert (w / 0x100) / 0x100 == ch2 + ch3 * 0x100;
  }

  /** Packing the bytes of a word gives the word back. */
  lemma WordBytesRoundTrip(w: uint32)
    ensures var b := WordBytes(w); MakeFourCC(b[0], b[1], b[2], b[3]) == w
  {
    var q1 := w / 0x100;
    var q2 := q1 / 0x100;
    assert w == w % 0x100 + q1 * 0x100;
    assert q1 == q1 % 0x100 + q2 * 0x100;
    assert q2 == q2 % 0x100 + (q2 / 0x100) * 0x100;
  }

  const FourCCDxt1: uint32 := MakeFourCC('D' as int, 'X' as int, 'T' as int, '1' as int)
  const FourCCDxt2: uint32 := MakeFourCC('D' as int, 'X' as int, 'T' as int, '2' as int)
  const FourCCDxt3: uint32 := MakeFourCC('D' as int, 'X' as int, 'T' as int, '3' as int)
  const FourCCDxt4: uint32 := MakeFourCC('D' as int, 'X' as int, 'T' as int, '4' as int)
  const FourCCDxt5: uint32 := MakeFourCC('D' as int, 'X' as int, 'T' as int, '5' as int)

  /** The format of a DDS file, from the FourCC of its pixel format; DXT2 and DXT4 are unsupported. */
  function DdsFormat(fourCC: uint32): (r: Option<ImageFormat>)
    ensures r.Some? <==> fourCC in {0x3154_5844, 0x3354_5844, 0x3554_5844}
    ensures r.Some? ==> IsBlockCompressed(r.value) && r.value != FmtEtc1
  {
    if fourCC == FourCCDxt1 then Some(FmtDxt1)
    else if fourCC == FourCCDxt3 then Some(FmtDxt3)
    else if fourCC == FourCCDxt5 then Some(FmtDxt5)
    else None
  }

  /** The format of a KTX file, from its OpenGL `glInternalFormat`. */
  function KtxFormat(internalFormat: uint32): (r: Option<ImageFormat>)
    ensures r.Some? <==> internalFormat in {0x83f1, 0x83f2, 0x83f3, 0x8d64, 0x8c00, 0x8c01, 0x8c02, 0x8c03}
    ensures r.Some? ==> IsCompressed(r.value)
  {
    match internalFormat
    case 0x83f1 => Some(FmtDxt1)
    case 0x83f2 => Some(FmtDxt3)
    case 0x83f3 => Some(FmtDxt5)
    case 0x8d64 => Some(FmtEtc1)
    case 0x8c00 => Some(FmtPvrtcRgb4Bpp)
    case 0x8c01 => Some(FmtPvrtcRgb2Bpp)
    case 0x8c02 => Some(FmtPvrtcRgba4Bpp)
    case 0x8c03 => Some(FmtPvrtcRgba2Bpp)
    case _ => None
  }

  /** The format of a PVR version 3 file, from the low word of its pixel format. */
  function PvrFormat(pixelFormatLo: uint32): (r: Option<ImageFormat>)
    ensures r.Some? <==> pixelFormatLo in {0, 1, 2, 3, 6, 7, 9, 11}
    ensures r.Some? ==> IsCompressed(r.value)
  {
    match pixelFormatLo
    case 0 => Some(FmtPvrtcRgb2Bpp)
    case 1 => Some(FmtPvrtcRgba2Bpp)
    case 2 => Some(FmtPvrtcRgb4Bpp)
    case 3 => Some(FmtPvrtcRgba4Bpp)
    case 6 => Some(FmtEtc1)
    case 7 => Some(FmtDxt1)
    case 9 => Some(FmtDxt3)
    case 11 => Some(FmtDxt5)
    case _ => None
  }

  /** The KTX `glInternalFormat` of each compressed format, the inverse of `KtxFormat`. */
  function KtxInternalFormat(format: ImageFormat): uint32
    requires IsCompressed(format)
  {
    if format == FmtDxt1 then 0x83f1
    else if format == FmtDxt3 then 0x83f2
    else if format == FmtDxt5 then 0x83f3
    else if format == FmtEtc1 then 0x8d64
    else if format == FmtPvrtcRgb4Bpp then 0x8c00
    else if format == FmtPvrtcRgb2Bpp then 0x8c01
    else if format == FmtPvrtcRgba4Bpp then 0x8c02
    else 0x8c03
  }

  /** The PVR pixel format of each compressed format, the inverse of `PvrFormat`. */
  function PvrPixelFormat(format: ImageFormat): uint32
    requires IsCompressed(format)
  {
    if format == FmtPvrtcRgb2Bpp then 0
    else if format == FmtPvrtcRgba2Bpp then 1
    else if format == FmtPvrtcRgb4Bpp then 2
    else if format == FmtPvrtcRgba4Bpp then 3
    else if format == FmtEtc1 then 6
    else if format == FmtDxt1 then 7
    else if format == FmtDxt3 then 9
    else 11
  }

  /** Every compressed format has exactly one KTX code: the table is a bijection. */
  lemma KtxFormatRoundTrip(format: ImageFormat, code: uint32)
    requires IsCompressed(format)
    ensures KtxFormat(KtxInternalFormat(format)) == Some(format)
    ensures KtxFormat(code) == Some(format) ==> code == KtxInternalFormat(format)
  {
  }

  /** Every compressed format has exactly one PVR code: the table is a bijection. */
  lemma PvrFormatRoundTrip(format: ImageFormat, code: uint32)
    requires IsCompressed(format)
    ensures PvrFormat(PvrPixelFormat(format)) == Some(format)
    ensures PvrFormat(code) == Some(format) ==> code == PvrPixelFormat(format)
  {
  }

  /** The DDS codes are the four-character codes "DXT1", "DXT3" and "DXT5" as the file stores them. */
  lemma DdsCodesAreFourCCs()
    ensures WordBytes(FourCCDxt1) == ['D' as int, 'X' as int, 'T' as int, '1' as int]
    ensures WordBytes(FourCCDxt5) == ['D' as int, 'X' as int, 'T' as int, '5' as int]
    ensures DdsFormat(FourCCDxt2) == None && DdsFormat(FourCCDxt4) == None
  {
    FourCCRoundTrip('D' as int, 'X' as int, 'T' as int, '1' as int);
    FourCCRoundTrip('D' as int, 'X' as int, 'T' as int, '5' as int);
  }
}
