/**
 * Pixel addressing in an uncompressed image of Turso3D/Resource/Image.cpp, and the two pixel
 * transformations it performs: the 2x2 box filter of `GenerateMipImage` and the RGB to RGBA
 * expansion of `BeginLoad`.
 */
module ImagePixels {
  import opened ImageLayout

  /** Byte index of channel `c` of pixel (x, y) in rows of `width` pixels of `comps` bytes. */
  function PixelIndex(width: nat, comps: nat, x: nat, y: nat, c: nat): nat
  {
    (y * width + x) * comps + c
  }

  lemma MulLeftMono(a: int, b: int, m: nat)
    requires a <= b
    ensures a * m <= b * m
  {
  }

  /** Division with remainder has one answer. */
  lemma DivModUnique(q: nat, d: nat, r: nat)
    requires r < d
    ensures (q * d + r) / d == q && (q * d + r) % d == r
  {
    var n := q * d + r;
    var q', r' := n / d, n % d;
    assert n == q' * d + r';
    if q' > q {
      MulLeftMono(1, q' - q, d);
    } else if q' < q {
      MulLeftMono(1, q - q', d);
    }
  }

  /** Every channel of every pixel of a `width` x `height` image lies inside its bytes. */
  lemma PixelIndexBound(width: nat, height: nat, comps: nat, x: nat, y: nat, c: nat)
    requires x < width && y < height && c < comps
    ensures PixelIndex(width, comps, x, y, c) < width * height * comps
  {
    MulLeftMono(y, height - 1, width);
    assert y * width + x < height * width;
    MulLeftMono(y * width + x + 1, height * width, comps);
    assert (y * width + x + 1) * comps == (y * width + x) * comps + comps;
  }

  /** A byte index names one channel of one pixel. */
  lemma PixelIndexDecode(width: nat, comps: nat, x: nat, y: nat, c: nat)
    requires x < width && c < comps
    ensures var k := PixelIndex(width, comps, x, y, c);
      k % comps == c && (k / comps) % width == x && (k / comps) / width == y
  {
    DivModUnique(y * width + x, comps, c);
    DivModUnique(y, width, x);
  }

  /** Pixel `x` of row `y` starts `x` pixels after the start of the row. */
  lemma PixelIndexInRow(width: nat, comps: nat, x: nat, y: nat)
    ensures PixelIndex(width, comps, x, y, 0) == y * (width * comps) + x * comps
  {
    assert (y * width + x) * comps == y * width * comps + x * comps;
    assert y * width * comps == y * (width * comps);
  }

  /** More slices only add bytes: a first slice of `width * height` pixels fits in the data. */
  lemma SliceFits(width: nat, height: nat, depth: nat, comps: nat)
    requires depth >= 1
    ensures width * height * comps <= width * height * depth * comps
  {
    MulLeftMono(1, depth, width * height);
    MulLeftMono(width * height, width * height * depth, comps);
  }

  /**
   * Channel `c` of output pixel (x, y): the same channel of the four input pixels of the 2x2
   * block at (2x, 2y), added up and shifted right by 2.
   */
  function BoxFilter(pixels: seq<uint8>, width: nat, height: nat, comps: nat, x: nat, y: nat, c: nat): uint8
    requires 2 * x + 1 < width && 2 * y + 1 < height && c < comps
    requires width * height * comps <= |pixels|
  {
    PixelIndexBound(width, height, comps, 2 * x, 2 * y, c);
    PixelIndexBound(width, height, comps, 2 * x + 1, 2 * y, c);
    PixelIndexBound(width, height, comps, 2 * x, 2 * y + 1, c);
    PixelIndexBound(width, height, comps, 2 * x + 1, 2 * y + 1, c);
    (pixels[PixelIndex(width, comps, 2 * x, 2 * y, c)] as int + pixels[PixelIndex(width, comps, 2 * x + 1, 2 * y, c)]
     + pixels[PixelIndex(width, comps, 2 * x, 2 * y + 1, c)] + pixels[PixelIndex(width, comps, 2 * x + 1, 2 * y + 1, c)]) / 4
  }

  /**
   * The filtered value of output byte `k` of an image `outWidth` pixels wide, with `k` read
   * back as a pixel and channel (0 for a byte no pixel of the input covers).
   */
  function MipByteAt(pixels: seq<uint8>, width: nat, height: nat, comps: nat, outWidth: nat, k: nat): uint8
  {
    if comps == 0 || outWidth == 0 then 0
    else
      var c, x, y := k % comps, (k / comps) % outWidth, (k / comps) / outWidth;
      if 2 * x + 1 < width && 2 * y + 1 < height && width * height * comps <= |pixels|
      then BoxFilter(pixels, width, height, comps, x, y, c)
      else 0
  }

  /** At the byte of a pixel, `MipByteAt` is the box filter of that pixel. */
  lemma MipByteAtPixel(pixels: seq<uint8>, width: nat, height: nat, comps: nat, outWidth: nat, x: nat, y: nat, c: nat)
    requires x < outWidth && c < comps
    requires 2 * x + 1 < width && 2 * y + 1 < height && width * height * comps <= |pixels|
    ensures MipByteAt(pixels, width, height, comps, outWidth, PixelIndex(outWidth, comps, x, y, c))
            == BoxFilter(pixels, width, height, comps, x, y, c)
  {
    PixelIndexDecode(outWidth, comps, x, y, c);
  }

  /** `RGB -> RGBA`: each pixel's three bytes in order, then an opaque alpha byte 0xff. */
  function RgbaFromRgb(rgb: seq<uint8>, pixels: nat): (rgba: seq<uint8>)
    requires 3 * pixels <= |rgb|
    ensures |rgba| == 4 * pixels
  {
    seq(4 * pixels, k requires 0 <= k < 4 * pixels => if k % 4 == 3 then 255 else rgb[3 * (k / 4) + k % 4])
  }

  /** Pixel `i` of the expansion: its three RGB bytes, then 0xff. */
  lemma RgbaPixel(rgb: seq<uint8>, pixels: nat, i: nat)
    requires 3 * pixels <= |rgb| && i < pixels
    ensures var rgba := RgbaFromRgb(rgb, pixels);
      && rgba[4 * i] == rgb[3 * i] && rgba[4 * i + 1] == rgb[3 * i + 1]
      && rgba[4 * i + 2] == rgb[3 * i + 2] && rgba[4 * i + 3] == 255
  {
    assert (4 * i) / 4 == i && (4 * i + 1) / 4 == i && (4 * i + 2) / 4 == i && (4 * i + 3) / 4 == i;
  }

  /** Drops every fourth byte: the inverse of the expansion. */
  function StripAlpha(rgba: seq<uint8>): (rgb: seq<uint8>)
    ensures |rgb| == 3 * (|rgba| / 4)
  {
    seq(3 * (|rgba| / 4), k requires 0 <= k < 3 * (|rgba| / 4) => rgba[4 * (k / 3) + k % 3])
  }

  /** The expansion loses nothing: stripping the alpha bytes gives back the RGB pixels. */
  lemma StripAlphaOfRgba(rgb: seq<uint8>, pixels: nat)
    requires |rgb| == 3 * pixels
    ensures StripAlpha(RgbaFromRgb(rgb, pixels)) == rgb
    ensures forall k :: 0 <= k < pixels ==> RgbaFromRgb(rgb, pixels)[4 * k + 3] == 255
  {
    var rgba := RgbaFromRgb(rgb, pixels);
    forall k | 0 <= k < 3 * pixels
      ensures StripAlpha(rgba)[k] == rgb[k]
    {
      var j := 4 * (k / 3) + k % 3;
      assert j / 4 == k / 3 && j % 4 == k % 3;
    }
    forall k | 0 <= k < pixels
      ensures rgba[4 * k + 3] == 255
    {
      assert (4 * k + 3) % 4 == 3;
    }
  }
}
