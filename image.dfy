/**
 * The `Image` resource of Turso3D/Resource/Image.cpp: a pixel buffer with a size, a format and
 * a number of mip levels, which it sizes, fills, walks level by level, filters down to the
 * next mip level and loads from DDS, KTX, PVR or decoded files.
 */
module Images {
  import opened Wrappers
  import opened ImageLayout
  import opened ImagePixels

  datatype IntVector3 = IntVector3(x: int, y: int, z: int)

  /** An unsigned header field stored into a C++ `int` (two's complement wrap-around). */
  function ToInt(u: uint32): int
  {
    if u < 0x8000_0000 then u else u - 0x1_0000_0000
  }

  /**
   * `ImageLevel`: where a level starts in the image data, its dimensions and its byte layout.
   * `NoLevel` is the default-constructed level `Level` returns for an index out of range.
   */
  datatype ImageLevel = NoLevel | ImageLevel(offset: nat, size: IntVector3, layout: LevelLayout)

  /** The level `index` of an image of the given size, format and level count. */
  function LevelOf(size: IntVector3, format: ImageFormat, numLevels: nat, index: nat): ImageLevel
  {
    if index >= numLevels then NoLevel
    else
      ImageLevel(LevelOffset(size.x, size.y, size.z, format, index),
                 IntVector3(LevelDim(size.x, index), LevelDim(size.y, index), LevelDim(size.z, index)),
                 LevelLayoutAt(size.x, size.y, size.z, format, index))
  }

  /** The only level of an image `SetSize` made starts the data and spans all of it. */
  lemma SingleLevelSpansData(size: IntVector3, format: ImageFormat)
    requires size.x >= 1 && size.y >= 1 && size.z >= 1 && PixelByteSizes[format] > 0
    ensures LevelOf(size, format, 1, 0).ImageLevel?
    ensures LevelOf(size, format, 1, 0).offset == 0 && LevelOf(size, format, 1, 0).size == size
    ensures LevelOf(size, format, 1, 0).layout.dataSize == size.x * size.y * size.z * PixelByteSizes[format]
    ensures LevelOf(size, format, 1, 1) == NoLevel
  {
    LevelDimZero(size.x);
    LevelDimZero(size.y);
    LevelDimZero(size.z);
    PixelByteSizeMeansUncompressed(format);
    UncompressedLayout(size.x, size.y, size.z, format);
  }

  /** Whether `SetSize` accepts a size and format: positive dimensions and a pixel byte size. */
  predicate SizeAccepted(newSize: IntVector3, newFormat: ImageFormat)
  {
    newSize.x > 0 && newSize.y > 0 && newSize.z > 0 && PixelByteSizes[newFormat] > 0
  }

  // ---------------------------------------------------------------------------------------
  // Container headers, with their fields already read from the file

  /** The fields `BeginLoad` uses from a DDS surface description. */
  datatype DdsHeader = DdsHeader(height: uint32, width: uint32, depth: uint32, mipMapCount: uint32, fourCC: uint32)

  /** The fields `BeginLoad` uses from a KTX version 1 header. */
  datatype KtxHeader = KtxHeader(
    endianness: uint32, glType: uint32, glFormat: uint32, internalFormat: uint32,
    width: uint32, height: uint32, depth: uint32, faces: uint32, mipmaps: uint32, keyValueBytes: uint32)

  /** The fields `BeginLoad` uses from a PVR version 3 header. */
  datatype PvrHeader = PvrHeader(pixelFormatLo: uint32, height: uint32, width: uint32, depth: uint32,
                                 numFaces: uint32, mipmapCount: uint32)

  /** What the stb_image decoder returns for any other file: size, component count and pixels. */
  datatype DecodedImage = DecodedImage(width: int, height: int, components: nat, pixels: seq<uint8>)

  /**
   * A file as `BeginLoad` sees it after its four-byte identifier ("DDS ", "\xabKTX", "PVR\x03"
   * or anything else): the header fields and the bytes that follow the header (for KTX, the
   * bytes after the key/value data; for PVR, the bytes after the metadata).
   */
  datatype ImageSource =
    | DdsFile(dds: DdsHeader, payload: seq<uint8>)
    | KtxFile(ktx: KtxHeader, levelData: seq<uint8>)
    | PvrFile(pvr: PvrHeader, payload: seq<uint8>)
    | OtherFile(decoded: Option<DecodedImage>)

  /** The KTX header checks that come before the format lookup. */
  predicate KtxHeaderSupported(h: KtxHeader)
  {
    h.endianness == 0x0403_0201 && h.glType == 0 && h.glFormat == 0 && h.faces <= 1 && h.depth <= 1 && h.mipmaps != 0
  }

  /** The PVR header checks that come before the format lookup. */
  predicate PvrHeaderSupported(h: PvrHeader)
  {
    h.depth <= 1 && h.numFaces <= 1 && h.mipmapCount != 0
  }

  /** What the stb_image decoder promises of an image it returns. */
  predicate DecodedWellFormed(d: DecodedImage)
  {
    d.width >= 1 && d.height >= 1 && 1 <= d.components <= 4 && |d.pixels| == d.width * d.height * d.components
  }

  /** Bytes of the 12-byte identifier and the 13 words of a KTX header. */
  const KtxHeaderBytes: nat := 64

  // ---------------------------------------------------------------------------------------
  // The KTX level loop, as a function of the level data

  /**
   * `Stream::Read<unsigned>` at `pos`: a little-endian 32-bit word. A word the stream does not
   * hold in full leaves the C++ variable (partly) unset; the model reads it as 0.
   */
  function ReadWord(s: seq<uint8>, pos: nat): uint32
  {
    if pos + 4 <= |s| then MakeFourCC(s[pos], s[pos + 1], s[pos + 2], s[pos + 3]) else 0
  }

  /** `(p + 3) & 0xfffffffc`: a position rounded up to a multiple of 4. */
  function AlignUp4(p: nat): (r: nat)
    ensures r % 4 == 0 && p <= r < p + 4
  {
    (p + 3) / 4 * 4
  }

  /**
   * `if ((position & 3) != 0) Seek((position + 3) & 0xfffffffc)` at position `pos` of the level
   * data, which starts at absolute stream position `base`; `Seek` stops at the end, `len`.
   */
  function AlignedPosition(base: nat, pos: nat, len: nat): (r: nat)
    requires pos <= len
    ensures pos <= r <= len
  {
    if (base + pos) % 4 != 0 then Min(AlignUp4(base + pos) - base, len) else pos
  }

  /**
   * Unless it stops at the end of the stream, the seek lands on a multiple of 4 less than 4
   * bytes on, and a position already on one stays.
   */
  lemma AlignedPositionIsAligned(base: nat, pos: nat, len: nat)
    requires pos <= len
    ensures var r := AlignedPosition(base, pos, len);
      (r < len ==> (base + r) % 4 == 0 && r < pos + 4) && ((base + pos) % 4 == 0 ==> r == pos)
  {
  }

  /** What reading one KTX level does: its size word, the bytes copied, the position after. */
  datatype KtxLevelRead = KtxLevelRead(levelSize: uint32, dataStart: nat, dataLen: nat, next: nat)

  /**
   * One level of the KTX loop, at position `pos` of the level data, which starts at absolute
   * stream position `base`: the size word, then as many of its bytes as the stream still has,
   * then a seek (clamped to the end of the stream) to the next multiple of 4.
   */
  function ReadKtxLevel(s: seq<uint8>, base: nat, pos: nat): (r: KtxLevelRead)
    requires pos <= |s|
    ensures r.dataStart + r.dataLen <= |s| && r.next <= |s| && r.dataLen <= r.levelSize
    ensures r.dataStart + r.dataLen <= r.next
  {
    var levelSize := ReadWord(s, pos);
    var dataStart := Min(pos + 4, |s|);
    var dataLen := Min(levelSize, |s| - dataStart);
    var end := dataStart + dataLen;
    var next := AlignedPosition(base, end, |s|);
    KtxLevelRead(levelSize, dataStart, dataLen, next)
  }

  /** `buf` with `bytes` written at `at`. */
  function Splice(buf: seq<uint8>, at: nat, bytes: seq<uint8>): (r: seq<uint8>)
    requires at + |bytes| <= |buf|
    ensures |r| == |buf|
  {
    seq(|buf|, i requires 0 <= i < |buf| => if at <= i < at + |bytes| then bytes[i - at] else buf[i])
  }

  /** `Splice` writes `bytes` at `at` and leaves every other byte of `buf` as it was. */
  lemma SpliceAt(buf: seq<uint8>, at: nat, bytes: seq<uint8>)
    requires at + |bytes| <= |buf|
    ensures forall i :: 0 <= i < |buf| ==>
      Splice(buf, at, bytes)[i] == if at <= i < at + |bytes| then bytes[i - at] else buf[i]
  {
  }

  datatype KtxResult = KtxResult(ok: bool, data: seq<uint8>)

  /**
   * The KTX level loop from level `i` of `count` on, with the stream at position `pos` of the
   * level data (which starts at absolute stream position `base`) and `offset` bytes of the data
   * buffer `buf` already filled: each level's size is checked against the room left, then the
   * bytes of it the stream has are copied in. Whether it succeeds, and what the buffer then holds.
   */
  function KtxFill(s: seq<uint8>, base: nat, count: nat, i: nat, pos: nat, offset: nat, buf: seq<uint8>): KtxResult
    requires i <= count && pos <= |s| && offset <= |buf|
    decreases count - i
  {
    if i == count then KtxResult(true, buf)
    else
      var r := ReadKtxLevel(s, base, pos);
      if r.levelSize + offset > |buf| then KtxResult(false, buf)
      else KtxFill(s, base, count, i + 1, r.next, offset + r.levelSize, Splice(buf, offset, s[r.dataStart..r.dataStart + r.dataLen]))
  }

  /** The whole KTX level loop: `count` levels from the start of the level data into `buf`. */
  function KtxLoad(s: seq<uint8>, base: nat, count: nat, buf: seq<uint8>): KtxResult
  {
    KtxFill(s, base, count, 0, 0, 0, buf)
  }

  /** The size words of levels `i` to `count` of the loop, added up. */
  function KtxTotalSize(s: seq<uint8>, base: nat, count: nat, i: nat, pos: nat): nat
    requires i <= count && pos <= |s|
    decreases count - i
  {
    if i == count then 0
    else
      var r := ReadKtxLevel(s, base, pos);
      r.levelSize + KtxTotalSize(s, base, count, i + 1, r.next)
  }

  /**
   * The per-level check `levelSize + dataOffset > dataSize` fails on some level exactly when the
   * level sizes together exceed the buffer; the buffer keeps its size either way.
   */
  lemma {:induction false} KtxFillSucceedsIff(s: seq<uint8>, base: nat, count: nat, i: nat, pos: nat, offset: nat, buf: seq<uint8>)
    requires i <= count && pos <= |s| && offset <= |buf|
    ensures KtxFill(s, base, count, i, pos, offset, buf).ok <==> offset + KtxTotalSize(s, base, count, i, pos) <= |buf|
    ensures |KtxFill(s, base, count, i, pos, offset, buf).data| == |buf|
    decreases count - i
  {
    if i < count {
      var r := ReadKtxLevel(s, base, pos);
      if r.levelSize + offset <= |buf| {
        KtxFillSucceedsIff(s, base, count, i + 1, r.next, offset + r.levelSize, Splice(buf, offset, s[r.dataStart..r.dataStart + r.dataLen]));
      }
    }
  }

  /**
   * Whether `BeginLoad` accepts a KTX file: the header passes its checks, the format is known,
   * and the levels together fit in the buffer of the level bytes less one size word per level.
   */
  predicate KtxAccepted(h: KtxHeader, levelData: seq<uint8>)
  {
    && KtxHeaderSupported(h) && KtxFormat(h.internalFormat).Some?
    && KtxTotalSize(levelData, KtxHeaderBytes + h.keyValueBytes, h.mipmaps, 0, 0) <= |levelData| - 4 * h.mipmaps
  }

  /** A zero-filled buffer of `n` bytes, as `std::make_unique<uint8_t[]>(n)` value-initialises it. */
  function Zeros(n: nat): (z: seq<uint8>)
    ensures |z| == n
  {
    seq(n, _ => 0)
  }

  /**
   * With the header accepted and the format known, the level loop over a zeroed buffer of the
   * level bytes less the size words succeeds exactly when `BeginLoad` accepts the file.
   */
  lemma KtxLoadAccepted(h: KtxHeader, levelData: seq<uint8>)
    requires KtxHeaderSupported(h) && KtxFormat(h.internalFormat).Some? && 4 * h.mipmaps <= |levelData|
    ensures KtxLoad(levelData, KtxHeaderBytes + h.keyValueBytes, h.mipmaps, Zeros(|levelData| - 4 * h.mipmaps)).ok
            <==> KtxAccepted(h, levelData)
  {
    KtxFillSucceedsIff(levelData, KtxHeaderBytes + h.keyValueBytes, h.mipmaps, 0, 0, 0, Zeros(|levelData| - 4 * h.mipmaps));
  }

  /**
   * The level loop of the KTX branch of `BeginLoad`: `count` times, read a level's size word,
   * give up on a level that does not fit in `buffer`, copy the bytes of the level the stream
   * still has, and seek to the next multiple of 4 of the absolute stream position.
   */
  method ReadKtxLevelData(s: seq<uint8>, base: nat, count: nat, buffer: array<uint8>) returns (ok: bool)
    modifies buffer
    ensures ok == KtxLoad(s, base, count, old(buffer[..])).ok
    ensures buffer[..] == KtxLoad(s, base, count, old(buffer[..])).data
  {
    ghost var goal := KtxFill(s, base, count, 0, 0, 0, buffer[..]);
    var dataOffset: nat := 0;
    var pos: nat := 0;
    var i: nat := 0;
    while i < count
      invariant i <= count && pos <= |s| && dataOffset <= buffer.Length
      invariant goal == KtxFill(s, base, count, i, pos, dataOffset, buffer[..])
    {
      var levelSize, fits, next := ReadKtxLevelInto(s, base, count, i, pos, buffer, dataOffset);
      if !fits {
        return false;
      }
      pos := next;
      dataOffset := dataOffset + levelSize;
      i := i + 1;
    }
    KtxFillDone(s, base, count, pos, dataOffset, buffer[..]);
    return true;
  }

  /** A level that does not fit ends the loop with a failure and the buffer as it is. */
  lemma KtxFillStops(s: seq<uint8>, base: nat, count: nat, i: nat, pos: nat, offset: nat, buf: seq<uint8>)
    requires i < count && pos <= |s| && offset <= |buf|
    requires ReadKtxLevel(s, base, pos).levelSize + offset > |buf|
    ensures KtxFill(s, base, count, i, pos, offset, buf) == KtxResult(false, buf)
  {
  }

  /** After the last level the loop succeeds with the buffer as it is. */
  lemma KtxFillDone(s: seq<uint8>, base: nat, count: nat, pos: nat, offset: nat, buf: seq<uint8>)
    requires pos <= |s| && offset <= |buf|
    ensures KtxFill(s, base, count, count, pos, offset, buf) == KtxResult(true, buf)
  {
  }

  /** A level that fits is copied in and the loop goes on from the position after it. */
  lemma KtxFillAdvance(s: seq<uint8>, base: nat, count: nat, i: nat, pos: nat, offset: nat, buf: seq<uint8>,
                       next: nat, levelSize: nat, newBuf: seq<uint8>)
    requires i < count && pos <= |s| && offset <= |buf|
    requires var r := ReadKtxLevel(s, base, pos);
      && levelSize == r.levelSize && next == r.next && offset + levelSize <= |buf|
      && newBuf == Splice(buf, offset, s[r.dataStart..r.dataStart + r.dataLen])
    ensures next <= |s| && offset + levelSize <= |newBuf|
    ensures KtxFill(s, base, count, i, pos, offset, buf) == KtxFill(s, base, count, i + 1, next, offset + levelSize, newBuf)
  {
  }

  /**
   * One turn of the KTX level loop at position `pos`: read the level's size word; if the level
   * fits in `buffer` after `dataOffset`, copy the bytes of it the stream still has there and
   * seek to the next multiple of 4 of the absolute stream position. This is `ReadKtxLevel`,
   * with the copy made into the buffer.
   */
  method ReadKtxLevelInto(s: seq<uint8>, base: nat, ghost count: nat, ghost i: nat, pos: nat, buffer: array<uint8>, dataOffset: nat)
    returns (levelSize: uint32, fits: bool, next: nat)
    requires i < count && pos <= |s| && dataOffset <= buffer.Length
    modifies buffer
    ensures var r := ReadKtxLevel(s, base, pos);
      && levelSize == r.levelSize
      && (fits <==> r.levelSize + dataOffset <= buffer.Length)
      && (fits ==> next == r.next && buffer[..] == Splice(old(buffer[..]), dataOffset, s[r.dataStart..r.dataStart + r.dataLen]))
      && (!fits ==> buffer[..] == old(buffer[..]))
    ensures fits ==> next <= |s| && dataOffset + levelSize <= buffer.Length
    ensures fits ==> KtxFill(s, base, count, i, pos, dataOffset, old(buffer[..]))
                     == KtxFill(s, base, count, i + 1, next, dataOffset + levelSize, buffer[..])
    ensures !fits ==> KtxFill(s, base, count, i, pos, dataOffset, old(buffer[..])) == KtxResult(false, buffer[..])
  {
    var p := pos;
    levelSize := ReadWord(s, p);
    p := Min(p + 4, |s|);
    if levelSize + dataOffset > buffer.Length {
      KtxFillStops(s, base, count, i, pos, dataOffset, buffer[..]);
      return levelSize, false, p;
    }
    ghost var before := buffer[..];
    var n := Min(levelSize, |s| - p);
    CopyBytes(s, p, n, buffer, dataOffset);
    p := p + n;
    p := AlignedPosition(base, p, |s|);
    KtxFillAdvance(s, base, count, i, pos, dataOffset, before, p, levelSize, buffer[..]);
    return levelSize, true, p;
  }

  /** `Stream::Read` of `n` bytes at `pos` into `buffer` at `at`. */
  method CopyBytes(s: seq<uint8>, pos: nat, n: nat, buffer: array<uint8>, at: nat)
    requires pos + n <= |s| && at + n <= buffer.Length
    modifies buffer
    ensures buffer[..] == Splice(old(buffer[..]), at, s[pos..pos + n])
  {
    forall j | 0 <= j < n {
      buffer[at + j] := s[pos + j];
    }
    SpliceAt(old(buffer[..]), at, s[pos..pos + n]);
  }

  // ---------------------------------------------------------------------------------------

  class Image {
    /** The pixel data; null until the image is first sized or loaded. */
    var data: array?<uint8>
    var size: IntVector3
    var format: ImageFormat
    var numLevels: nat

    /** An image with a pixel byte size holds exactly its pixels. */
    ghost predicate Valid()
      reads this
    {
      PixelByteSizes[format] > 0 ==>
        size.x >= 1 && size.y >= 1 && size.z >= 1 && data != null &&
        data.Length == size.x * size.y * size.z * PixelByteSizes[format]
    }

    constructor ()
      ensures Valid()
      ensures data == null && size == IntVector3(0, 0, 0) && format == FmtNone && numLevels == 1
    {
      data := null;
      size := IntVector3(0, 0, 0);
      format := FmtNone;
      numLevels := 1;
    }

    /** Bytes of pixel data the size and format call for: `size.x * size.y * size.z * PixelByteSize()`. */
    function PixelDataSize(): int
      reads this
    {
      size.x * size.y * size.z * PixelByteSizes[format]
    }

    method SetSize(newSize: IntVector3, newFormat: ImageFormat)
      requires Valid()
      modifies this
      ensures Valid()
      ensures (newSize == old(size) && newFormat == old(format)) || !SizeAccepted(newSize, newFormat) ==>
                unchanged(this)
      ensures !(newSize == old(size) && newFormat == old(format)) && SizeAccepted(newSize, newFormat) ==>
                && fresh(data)
                && data.Length == newSize.x * newSize.y * newSize.z * PixelByteSizes[newFormat]
                && (forall i :: 0 <= i < data.Length ==> data[i] == 0)
                && size == newSize && format == newFormat && numLevels == 1
    {
      if newSize == size && newFormat == format {
        return;
      }
      if newSize.x <= 0 || newSize.y <= 0 || newSize.z <= 0 {
        return;
      }
      if PixelByteSizes[newFormat] == 0 {
        return;
      }
      var pixelBytes := PixelByteSizes[newFormat];
      var n: nat := newSize.x * newSize.y * newSize.z * pixelBytes;
      data := new uint8[n](_ => 0);
      size := newSize;
      format := newFormat;
      numLevels := 1;
    }

    /** The two-dimensional overload: depth 1. */
    method SetSize2D(width: int, height: int, newFormat: ImageFormat)
      requires Valid()
      modifies this
      ensures Valid()
      ensures (IntVector3(width, height, 1) == old(size) && newFormat == old(format)) || !SizeAccepted(IntVector3(width, height, 1), newFormat) ==>
                unchanged(this)
      ensures !(IntVector3(width, height, 1) == old(size) && newFormat == old(format)) && SizeAccepted(IntVector3(width, height, 1), newFormat) ==>
                && fresh(data) && data.Length == width * height * PixelByteSizes[newFormat]
                && (forall i :: 0 <= i < data.Length ==> data[i] == 0)
                && size == IntVector3(width, height, 1) && format == newFormat && numLevels == 1
    {
      SetSize(IntVector3(width, height, 1), newFormat);
    }

    /**
     * Copies `PixelDataSize()` bytes of `pixelData` over the data of an uncompressed image; a
     * compressed image is left alone.
     */
    method SetData(pixelData: seq<uint8>)
      requires Valid()
      requires !IsCompressed(format) ==> PixelDataSize() <= |pixelData|
      modifies data
      ensures data != null ==> forall i :: 0 <= i < data.Length ==>
        data[i] == if !IsCompressed(format) && i < PixelDataSize() then pixelData[i] else old(data[i])
      ensures !IsCompressed(format) && PixelDataSize() > 0 ==> data != null && data.Length == PixelDataSize()
    {
      if !IsCompressed(format) {
        var n := size.x * size.y * size.z * PixelByteSizes[format];
        assert n > 0 ==> PixelByteSizes[format] > 0;
        forall i | 0 <= i < n {
          data[i] := pixelData[i];
        }
      }
    }

    /** `Level(index)`: walks the mip chain, adding up the level sizes, until level `index`. */
    method Level(index: nat) returns (level: ImageLevel)
      ensures level == LevelOf(size, format, numLevels, index)
    {
      if index >= numLevels {
        return NoLevel;
      }
      var i := 0;
      var offset := 0;
      while true
        invariant i <= index
        invariant offset == LevelOffset(size.x, size.y, size.z, format, i)
        decreases index - i
      {
        var levelSize := IntVector3(Max(Shr(size.x, i), 1), Max(Shr(size.y, i), 1), Max(Shr(size.z, i), 1));
        var layout := CalculateDataSize(levelSize.x, levelSize.y, levelSize.z, format);
        if i == index {
          return ImageLevel(offset, levelSize, layout);
        }
        offset := offset + layout.dataSize;
        i := i + 1;
      }
    }

    /**
     * `GenerateMipImage`: for a format of 1, 2 or 4 one-byte components, sizes `dest` to half
     * this image (at least 1 in each dimension) and fills its first slice with the 2x2 box
     * filter of this image's first slice. Other formats are refused.
     */
    method GenerateMipImage(dest: Image) returns (ok: bool)
      requires Valid() && dest.Valid() && dest != this
      requires data != null ==> dest.data != data
      requires 1 <= Components[format] <= 4 ==> size.x >= 2 && size.y >= 2
      modifies dest, dest.data
      ensures dest.Valid()
      ensures ok <==> 1 <= Components[format] <= 4
      ensures !ok ==> unchanged(dest) && (dest.data != null ==> unchanged(dest.data))
      ensures ok ==>
        var comps, outW, outH := Components[format], MipDim(size.x), MipDim(size.y);
        && dest.size == IntVector3(outW, outH, MipDim(size.z)) && dest.format == format
        && dest.numLevels == (if dest.data == old(dest.data) then old(dest.numLevels) else 1)
        && data != null && dest.data != null
        && IsMipSlice(dest.data[..], data[..], size.x, size.y, comps, outW, outH)
        && (forall i | outW * outH * comps <= i < dest.data.Length ::
              dest.data[i] == if dest.data == old(dest.data) then old(dest.data[i]) else 0)
    {
      var comps := Components[format];
      if comps < 1 || comps > 4 {
        return false;
      }
      ComponentsArePixelBytes(format);
      var sizeOut := IntVector3(MipDim(size.x), MipDim(size.y), MipDim(size.z));
      dest.SetSize(sizeOut, format);

      var input, out := data, dest.data;
      var w, h, outW, outH := size.x, size.y, sizeOut.x, sizeOut.y;
      SliceFits(w, h, size.z, comps);
      SliceFits(outW, outH, sizeOut.z, comps);
      assert w * h * comps <= input.Length;
      assert outW * outH * comps <= out.Length;

      var pixels := input[..];
      ghost var expected := MipBytes(pixels, w, h, comps, outW, outH);
      MipBytesAreMipSlice(pixels, w, h, comps, outW, outH);
      FilterFirstSlice(pixels, out, w, h, comps, outW, outH, expected);
      MipSliceOfPrefix(out[..], expected, pixels, w, h, comps, outW, outH);
      return true;
    }

    /** `Save`: the pixel byte size handed to the PNG encoder, or None when `Save` refuses the image. */
    function SavePixelByteSize(): (r: Option<nat>)
      reads this
      ensures r.Some? <==> !IsCompressed(format) && data != null && 1 <= PixelByteSizes[format] <= 4
      ensures r.Some? ==> r.value == PixelByteSizes[format]
    {
      if IsCompressed(format) then None
      else if data == null then None
      else if PixelByteSizes[format] < 1 || PixelByteSizes[format] > 4 then None
      else Some(PixelByteSizes[format])
    }

    /** The PNG encoder reads `size.x * size.y` pixels, which an image `Save` accepts always holds. */
    lemma SaveReadsWithinData()
      requires Valid() && SavePixelByteSize().Some?
      ensures size.x * size.y * SavePixelByteSize().value <= data.Length
    {
      SliceFits(size.x, size.y, size.z, PixelByteSizes[format]);
    }

    /**
     * `DecompressLevel`'s guards: it decompresses (with an external decoder) only into a
     * non-null destination, a level that exists and a compressed format.
     */
    function DecompressLevelAccepts(destIsNull: bool, index: nat): (r: bool)
      reads this
      ensures r ==> LevelOf(size, format, numLevels, index).ImageLevel?
      ensures r <==> !destIsNull && index < numLevels && IsCompressed(format)
    {
      if destIsNull then false
      else if index >= numLevels then false
      else IsCompressed(format)
    }

    // -------------------------------------------------------------------------------------
    // BeginLoad

    /** The image the DDS branch loads: the FourCC's format, the payload, the header's size and level count. */
    predicate DdsLoaded(header: DdsHeader, payload: seq<uint8>)
      reads this, data
    {
      && DdsFormat(header.fourCC) == Some(format)
      && data != null && data[..] == payload
      && size == IntVector3(ToInt(header.width), ToInt(header.height), Max(ToInt(header.depth), 1))
      && numLevels == (if header.mipMapCount != 0 then header.mipMapCount else 1)
    }

    /**
     * The image the KTX branch loads once the header and format pass: the format, the size,
     * one level per size word, and what the level loop leaves in a zeroed buffer of the level
     * bytes less the size words.
     */
    predicate KtxLoaded(header: KtxHeader, levelData: seq<uint8>)
      reads this, data
    {
      && KtxFormat(header.internalFormat) == Some(format)
      && size == IntVector3(ToInt(header.width), ToInt(header.height), 1)
      && numLevels == header.mipmaps
      && 4 * header.mipmaps <= |levelData| && data != null
      && data[..] == KtxLoad(levelData, KtxHeaderBytes + header.keyValueBytes, header.mipmaps,
                             Zeros(|levelData| - 4 * header.mipmaps)).data
    }

    /** The image the PVR branch loads: the pixel format's format, the payload, the header's size and level count. */
    predicate PvrLoaded(header: PvrHeader, payload: seq<uint8>)
      reads this, data
    {
      && PvrFormat(header.pixelFormatLo) == Some(format)
      && data != null && data[..] == payload
      && size == IntVector3(ToInt(header.width), ToInt(header.height), 1)
      && numLevels == header.mipmapCount
    }

    /**
     * The image loaded from a decoded file: its size, the format of its component count, and
     * its pixels, expanded to RGBA when there are three components.
     */
    predicate DecodedLoaded(image: DecodedImage)
      requires DecodedWellFormed(image)
      reads this, data
    {
      && size == IntVector3(image.width, image.height, 1)
      && format == ComponentsToFormat[image.components]
      && data != null
      && data[..] == if image.components == 3 then RgbaFromRgb(image.pixels, image.width * image.height) else image.pixels
    }

    method BeginLoad(source: ImageSource) returns (ok: bool)
      requires Valid()
      requires source.KtxFile? && KtxHeaderSupported(source.ktx) && KtxFormat(source.ktx.internalFormat).Some? ==>
                 4 * source.ktx.mipmaps <= |source.levelData|
      requires source.OtherFile? && source.decoded.Some? ==> DecodedWellFormed(source.decoded.value)
      modifies this, data
      ensures Valid()
      ensures source.DdsFile? ==> (ok <==> DdsFormat(source.dds.fourCC).Some?)
      ensures source.KtxFile? ==> (ok <==> KtxAccepted(source.ktx, source.levelData))
      ensures source.PvrFile? ==> (ok <==> PvrHeaderSupported(source.pvr) && PvrFormat(source.pvr.pixelFormatLo).Some?)
      ensures source.OtherFile? ==> (ok <==> source.decoded.Some?)
      ensures source.DdsFile? && ok ==> fresh(data) && DdsLoaded(source.dds, source.payload)
      ensures source.KtxFile? && KtxHeaderSupported(source.ktx) && KtxFormat(source.ktx.internalFormat).Some? ==>
                fresh(data) && KtxLoaded(source.ktx, source.levelData)
      ensures source.PvrFile? && ok ==> fresh(data) && PvrLoaded(source.pvr, source.payload)
      ensures source.OtherFile? && ok ==>
                && DecodedLoaded(source.decoded.value)
                && numLevels == if old(size) == size && old(format) == format then old(numLevels) else 1
      ensures (source.DdsFile? && !ok) || (source.KtxFile? && !KtxHeaderSupported(source.ktx))
              || (source.PvrFile? && !PvrHeaderSupported(source.pvr)) || (source.OtherFile? && !ok) ==>
                unchanged(this) && (data != null ==> unchanged(data))
      ensures (source.KtxFile? && KtxHeaderSupported(source.ktx) && KtxFormat(source.ktx.internalFormat).None?)
              || (source.PvrFile? && PvrHeaderSupported(source.pvr) && !ok) ==>
                && format == FmtNone && data == old(data) && size == old(size) && numLevels == old(numLevels)
                && (data != null ==> unchanged(data))
    {
      match source
      case DdsFile(header, payload) =>
        ok := LoadDds(header, payload);
      case KtxFile(header, levelData) =>
        ok := LoadKtx(header, levelData);
      case PvrFile(header, payload) =>
        ok := LoadPvr(header, payload);
      case OtherFile(decoded) =>
        if decoded.None? {
          return false;
        }
        LoadDecoded(decoded.value);
        ok := true;
    }

    /** The DDS branch of `BeginLoad`. */
    method LoadDds(header: DdsHeader, payload: seq<uint8>) returns (ok: bool)
      requires Valid()
      modifies this
      ensures Valid()
      ensures ok <==> DdsFormat(header.fourCC).Some?
      ensures !ok ==> unchanged(this)
      ensures ok ==> fresh(data) && DdsLoaded(header, payload)
    {
      if header.fourCC == FourCCDxt1 {
        format := FmtDxt1;
      } else if header.fourCC == FourCCDxt3 {
        format := FmtDxt3;
      } else if header.fourCC == FourCCDxt5 {
        format := FmtDxt5;
      } else {
        return false;
      }
      data := new uint8[|payload|](i requires 0 <= i < |payload| => payload[i]);
      size := IntVector3(ToInt(header.width), ToInt(header.height), Max(ToInt(header.depth), 1));
      numLevels := if header.mipMapCount != 0 then header.mipMapCount else 1;
      return true;
    }

    /**
     * The KTX branch of `BeginLoad`: the header checks, the format lookup (which leaves the
     * format `FmtNone` when it fails), then the level loop into a new buffer of the remaining
     * bytes less one size word per level.
     */
    method LoadKtx(header: KtxHeader, levelData: seq<uint8>) returns (ok: bool)
      requires Valid()
      requires KtxHeaderSupported(header) && KtxFormat(header.internalFormat).Some? ==> 4 * header.mipmaps <= |levelData|
      modifies this
      ensures Valid()
      ensures !KtxHeaderSupported(header) ==> !ok && unchanged(this)
      ensures KtxHeaderSupported(header) && KtxFormat(header.internalFormat).None? ==>
                !ok && format == FmtNone && data == old(data) && size == old(size) && numLevels == old(numLevels)
      ensures KtxHeaderSupported(header) && KtxFormat(header.internalFormat).Some? ==>
                && fresh(data) && KtxLoaded(header, levelData)
                && ok == KtxLoad(levelData, KtxHeaderBytes + header.keyValueBytes, header.mipmaps,
                                 Zeros(|levelData| - 4 * header.mipmaps)).ok
      ensures ok <==> KtxAccepted(header, levelData)
    {
      if header.endianness != 0x0403_0201 {
        return false;
      }
      if header.glType != 0 || header.glFormat != 0 {
        return false;
      }
      if header.faces > 1 || header.depth > 1 {
        return false;
      }
      if header.mipmaps == 0 {
        return false;
      }
      format := FmtNone;
      var found := KtxFormat(header.internalFormat);
      if found.None? {
        return false;
      }
      format := found.value;
      PixelByteSizeMeansUncompressed(format);

      var base := KtxHeaderBytes + header.keyValueBytes;
      var dataSize := |levelData| - 4 * header.mipmaps;
      var buffer := new uint8[dataSize](_ => 0);
      data := buffer;
      size := IntVector3(ToInt(header.width), ToInt(header.height), 1);
      numLevels := header.mipmaps;

      assert buffer[..] == Zeros(dataSize);
      ok := ReadKtxLevelData(levelData, base, header.mipmaps, buffer);
      KtxLoadAccepted(header, levelData);
    }

    /** The PVR branch of `BeginLoad`; a failed format lookup leaves the format `FmtNone`. */
    method LoadPvr(header: PvrHeader, payload: seq<uint8>) returns (ok: bool)
      requires Valid()
      modifies this
      ensures Valid()
      ensures ok <==> PvrHeaderSupported(header) && PvrFormat(header.pixelFormatLo).Some?
      ensures !PvrHeaderSupported(header) ==> unchanged(this)
      ensures PvrHeaderSupported(header) && !ok ==>
                format == FmtNone && data == old(data) && size == old(size) && numLevels == old(numLevels)
      ensures ok ==> fresh(data) && PvrLoaded(header, payload)
    {
      if header.depth > 1 || header.numFaces > 1 {
        return false;
      }
      if header.mipmapCount == 0 {
        return false;
      }
      format := FmtNone;
      var found := PvrFormat(header.pixelFormatLo);
      if found.None? {
        return false;
      }
      format := found.value;
      data := new uint8[|payload|](i requires 0 <= i < |payload| => payload[i]);
      size := IntVector3(ToInt(header.width), ToInt(header.height), 1);
      numLevels := header.mipmapCount;
      return true;
    }

    /**
     * The branch of `BeginLoad` for files stb_image decodes: size the image as the decoded
     * one, expanding three-component pixels to RGBA, and copy the pixels in.
     */
    method LoadDecoded(image: DecodedImage)
      requires Valid() && DecodedWellFormed(image)
      modifies this, data
      ensures Valid()
      ensures DecodedLoaded(image)
      ensures numLevels == if old(size) == size && old(format) == format then old(numLevels) else 1
    {
      var newFormat := ComponentsToFormat[image.components];
      SetSize(IntVector3(image.width, image.height, 1), newFormat);
      assert PixelDataSize() == image.width * image.height * PixelByteSizes[newFormat];
      if image.components != 3 {
        SetData(image.pixels);
      } else {
        var rgba := ExpandRgbToRgba(image.pixels, image.width, image.height);
        SetData(rgba[..]);
      }
    }
  }

  /**
   * `out` starts with the mip level of `input`: byte `c` of every pixel (x, y) of the
   * `outW` x `outH` output slice is the box filter of the 2x2 input block at (2x, 2y).
   */
  ghost predicate IsMipSlice(out: seq<uint8>, input: seq<uint8>, w: nat, h: nat, comps: nat, outW: nat, outH: nat)
  {
    && 2 * outW <= w && 2 * outH <= h && w * h * comps <= |input| && outW * outH * comps <= |out|
    && forall y, x, c | 0 <= y < outH && 0 <= x < outW && 0 <= c < comps ::
         PixelIndex(outW, comps, x, y, c) < |out|
         && out[PixelIndex(outW, comps, x, y, c)] == BoxFilter(input, w, h, comps, x, y, c)
  }

  /** The first `outW * outH * comps` bytes of the mip level of `input`. */
  ghost function MipBytes(input: seq<uint8>, w: nat, h: nat, comps: nat, outW: nat, outH: nat): (out: seq<uint8>)
    ensures |out| == outW * outH * comps
  {
    seq(outW * outH * comps, i requires 0 <= i => MipByteAt(input, w, h, comps, outW, i))
  }

  /** Those bytes hold the box filter of every output pixel. */
  lemma MipBytesAreMipSlice(input: seq<uint8>, w: nat, h: nat, comps: nat, outW: nat, outH: nat)
    requires 2 * outW <= w && 2 * outH <= h && w * h * comps <= |input|
    ensures IsMipSlice(MipBytes(input, w, h, comps, outW, outH), input, w, h, comps, outW, outH)
  {
    var expected := MipBytes(input, w, h, comps, outW, outH);
    forall y, x, c | 0 <= y < outH && 0 <= x < outW && 0 <= c < comps
      ensures PixelIndex(outW, comps, x, y, c) < |expected|
      ensures expected[PixelIndex(outW, comps, x, y, c)] == BoxFilter(input, w, h, comps, x, y, c)
    {
      PixelIndexBound(outW, outH, comps, x, y, c);
      MipByteAtPixel(input, w, h, comps, outW, x, y, c);
    }
  }

  /** A buffer that starts with a mip slice is one. */
  lemma MipSliceOfPrefix(out: seq<uint8>, expected: seq<uint8>, input: seq<uint8>, w: nat, h: nat, comps: nat, outW: nat, outH: nat)
    requires IsMipSlice(expected, input, w, h, comps, outW, outH)
    requires |expected| <= |out| && forall i :: 0 <= i < |expected| ==> out[i] == expected[i]
    ensures IsMipSlice(out, input, w, h, comps, outW, outH)
  {
  }

  /**
   * The row loop of `GenerateMipImage` over the first `outW` x `outH` slice; `k` is the output
   * pointer, which moves on by one row of `outW * comps` bytes each time.
   */
  method FilterFirstSlice(input: seq<uint8>, out: array<uint8>, w: nat, h: nat, comps: nat, outW: nat, outH: nat,
                          ghost expected: seq<uint8>)
    requires comps >= 1
    requires 2 * outW <= w && 2 * outH <= h && w * h * comps <= |input|
    requires IsMipSlice(expected, input, w, h, comps, outW, outH)
    requires |expected| == outW * outH * comps <= out.Length
    modifies out
    ensures forall i :: 0 <= i < out.Length ==> out[i] == if i < |expected| then expected[i] else old(out[i])
  {
    var rowBytes := outW * comps;
    RowsOfSlice(outW, outH, comps);
    var k := 0;
    for y := 0 to outH
      invariant k == y * rowBytes && k <= |expected|
      invariant forall i :: 0 <= i < out.Length ==> out[i] == if i < k then expected[i] else old(out[i])
    {
      NextStride(y, outH, rowBytes);
      FilterRow(input, out, w, h, comps, outW, outH, y, k, expected);
      k := k + rowBytes;
    }
  }

  /** A slice is `height` rows of `width * comps` bytes. */
  lemma RowsOfSlice(width: nat, height: nat, comps: nat)
    ensures width * height * comps == height * (width * comps)
  {
  }

  /** Moving on by one stride from the start of item `i` of `count` stays within the `count` items. */
  lemma NextStride(i: nat, count: nat, stride: nat)
    requires i < count
    ensures i * stride + stride == (i + 1) * stride <= count * stride
  {
    MulLeftMono(i + 1, count, stride);
  }

  /** The pixel loop of `GenerateMipImage`: the `outW` pixels of output row `y`, from `k` on. */
  method FilterRow(input: seq<uint8>, out: array<uint8>, w: nat, h: nat, comps: nat, outW: nat, outH: nat, y: nat, k: nat,
                   ghost expected: seq<uint8>)
    requires 2 * outW <= w && 2 * outH <= h && w * h * comps <= |input| && y < outH
    requires IsMipSlice(expected, input, w, h, comps, outW, outH)
    requires |expected| == outW * outH * comps <= out.Length
    requires k == y * (outW * comps) && k + outW * comps <= |expected|
    modifies out
    ensures forall i :: 0 <= i < out.Length ==>
      out[i] == if k <= i < k + outW * comps then expected[i] else old(out[i])
  {
    var p := k;
    for x := 0 to outW
      invariant p == k + x * comps && p <= k + outW * comps
      invariant forall i :: 0 <= i < out.Length ==>
        out[i] == if k <= i < p then expected[i] else old(out[i])
    {
      NextStride(x, outW, comps);
      PixelIndexInRow(outW, comps, x, y);
      FilterPixel(input, out, w, h, comps, outW, outH, x, y, p, expected);
      p := p + comps;
    }
  }

  /** The channel loop of `GenerateMipImage`: the `comps` bytes of output pixel (x, y), from `k` on. */
  method FilterPixel(input: seq<uint8>, out: array<uint8>, w: nat, h: nat, comps: nat, outW: nat, outH: nat, x: nat, y: nat, k: nat,
                     ghost expected: seq<uint8>)
    requires 2 * outW <= w && 2 * outH <= h && w * h * comps <= |input| && x < outW && y < outH
    requires IsMipSlice(expected, input, w, h, comps, outW, outH)
    requires |expected| == outW * outH * comps <= out.Length
    requires k == PixelIndex(outW, comps, x, y, 0) && k + comps <= |expected|
    modifies out
    ensures forall i :: 0 <= i < out.Length ==>
      out[i] == if k <= i < k + comps then expected[i] else old(out[i])
  {
    for c := 0 to comps
      invariant forall i :: 0 <= i < out.Length ==>
        out[i] == if k <= i < k + c then expected[i] else old(out[i])
    {
      PixelIndexBound(w, h, comps, 2 * x, 2 * y, c);
      PixelIndexBound(w, h, comps, 2 * x + 1, 2 * y, c);
      PixelIndexBound(w, h, comps, 2 * x, 2 * y + 1, c);
      PixelIndexBound(w, h, comps, 2 * x + 1, 2 * y + 1, c);
      out[k + c] := (input[PixelIndex(w, comps, 2 * x, 2 * y, c)] as int
                     + input[PixelIndex(w, comps, 2 * x + 1, 2 * y, c)]
                     + input[PixelIndex(w, comps, 2 * x, 2 * y + 1, c)]
                     + input[PixelIndex(w, comps, 2 * x + 1, 2 * y + 1, c)]) / 4;
      assert k + c == PixelIndex(outW, comps, x, y, c);
    }
  }

  /** The RGB to RGBA conversion loop of `BeginLoad`, with `src` and `dest` as byte indices. */
  method ExpandRgbToRgba(rgb: seq<uint8>, width: nat, height: nat) returns (rgba: array<uint8>)
    requires 3 * (width * height) <= |rgb|
    ensures fresh(rgba) && rgba[..] == RgbaFromRgb(rgb, width * height)
  {
    var pixels := width * height;
    rgba := new uint8[4 * pixels];
    ghost var expected := RgbaFromRgb(rgb, pixels);
    var src, dest := 0, 0;
    for i := 0 to pixels
      invariant src == 3 * i && dest == 4 * i
      invariant forall k :: 0 <= k < dest ==> rgba[k] == expected[k]
    {
      RgbaPixel(rgb, pixels, i);
      rgba[dest] := rgb[src];
      rgba[dest + 1] := rgb[src + 1];
      rgba[dest + 2] := rgb[src + 2];
      rgba[dest + 3] := 0xff;
      src, dest := src + 3, dest + 4;
    }
  }
}
