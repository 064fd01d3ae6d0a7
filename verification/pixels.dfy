/**
 * Decoded raster images and the two pixel accessors of the ETC compressor:
 * reading one packed RGBA pixel, and reading one with edge clamping.
 */
module Pixels {
  import opened Bytes

  /** A packed 32-bit sample: R in bits 0-7, G in 8-15, B in 16-23, A in 24-31. */
  type Pixel = p: int | 0 <= p < 0x1_0000_0000

  /**
   * A row-major buffer of interleaved 8-bit channel samples, as returned by
   * the image decoder or produced by the resizer.
   */
  datatype Image = Image(data: seq<Byte>, width: nat, height: nat, components: nat)
  {
    /** The buffer holds exactly one sample per channel per pixel. */
    predicate Valid() {
      |data| == width * height * components
    }

    /** The channel counts the compressor accepts: RGB or RGBA. */
    predicate Supported() {
      Valid() && (components == 3 || components == 4)
    }
  }

  /**
   * The packed word. GetPixel ORs the four channels shifted by 0, 8, 16
   * and 24 bits; as the shifted fields do not overlap, the OR is this sum.
   */
  function Pack(r: Byte, g: Byte, b: Byte, a: Byte): Pixel {
    r + 0x100 * g + 0x1_0000 * b + 0x100_0000 * a
  }

  function Red(p: Pixel): Byte { p % 0x100 }
  function Green(p: Pixel): Byte { p / 0x100 % 0x100 }
  function Blue(p: Pixel): Byte { p / 0x1_0000 % 0x100 }
  function Alpha(p: Pixel): Byte { p / 0x100_0000 }

  /** Unpacking a packed word gives back each channel. */
  lemma PackChannels(r: Byte, g: Byte, b: Byte, a: Byte)
    ensures Red(Pack(r, g, b, a)) == r && Green(Pack(r, g, b, a)) == g
    ensures Blue(Pack(r, g, b, a)) == b && Alpha(Pack(r, g, b, a)) == a
  {
    var p := Pack(r, g, b, a);
    assert p == r + 0x100 * (g + 0x100 * (b + 0x100 * a));
    assert p / 0x100 == g + 0x100 * (b + 0x100 * a);
    assert p / 0x1_0000 == b + 0x100 * a;
  }

  /** Index of the first sample of pixel (x, y). */
  function SampleIndex(img: Image, x: nat, y: nat): nat {
    (y * img.width + x) * img.components
  }

  /** Every channel of an in-range pixel lies inside the buffer. */
  lemma SampleInRange(img: Image, x: nat, y: nat, k: nat)
    requires img.Valid() && x < img.width && y < img.height && k < img.components
    ensures SampleIndex(img, x, y) + k < |img.data|
  {
    var w, h, c := img.width, img.height, img.components;
    assert y * w + x < h * w by {
      assert y * w + x < y * w + w == (y + 1) * w;
      assert (y + 1) * w <= h * w by { MulMono(y + 1, h, w); }
    }
    assert (y * w + x + 1) * c <= h * w * c by { MulMono(y * w + x + 1, h * w, c); }
    assert (y * w + x + 1) * c == SampleIndex(img, x, y) + c;
  }

  lemma MulMono(a: int, b: int, c: nat)
    requires a <= b
    ensures a * c <= b * c
  {}

  /** The four samples at data[i..i+components] packed into one word; A = 255 without an alpha channel. */
  function PackSamples(data: seq<Byte>, i: nat, components: nat): (p: Pixel)
    requires components == 3 || components == 4
    requires i + components <= |data|
    ensures Red(p) == data[i] && Green(p) == data[i + 1] && Blue(p) == data[i + 2]
    ensures Alpha(p) == if components == 4 then data[i + 3] else 255
  {
    var a := if components == 4 then data[i + 3] else 255;
    PackChannels(data[i], data[i + 1], data[i + 2], a);
    Pack(data[i], data[i + 1], data[i + 2], a)
  }

  /**
   * GetPixel: the pixel at (x, y), with A = 255 when the image has no alpha
   * channel.
   */
  function GetPixel(img: Image, x: nat, y: nat): (p: Pixel)
    requires img.Supported() && x < img.width && y < img.height
    ensures SampleIndex(img, x, y) + img.components <= |img.data|
    ensures Red(p) == img.data[SampleIndex(img, x, y)]
    ensures Green(p) == img.data[SampleIndex(img, x, y) + 1]
    ensures Blue(p) == img.data[SampleIndex(img, x, y) + 2]
    ensures Alpha(p) == if img.components == 4 then img.data[SampleIndex(img, x, y) + 3] else 255
  {
    SampleInRange(img, x, y, img.components - 1);
    PackSamples(img.data, SampleIndex(img, x, y), img.components)
  }

  function Distance(a: int, b: int): nat {
    if a <= b then b - a else a - b
  }

  /**
   * The coordinate GetPixelClamped reads instead of v: an index past the
   * end is replaced by the last valid one. The result is the in-range index
   * nearest to v.
   */
  function ClampCoord(v: nat, size: nat): (c: nat)
    requires size >= 1
    ensures c < size
    ensures forall q :: 0 <= q < size ==> Distance(c, v) <= Distance(q, v)
  {
    if v >= size then size - 1 else v
  }

  /** The nearest in-range index is unique, so ClampCoord is determined by its contract. */
  lemma ClampCoordUnique(v: nat, size: nat, c: nat)
    requires size >= 1 && c < size
    requires forall q :: 0 <= q < size ==> Distance(c, v) <= Distance(q, v)
    ensures c == ClampCoord(v, size)
  {
    var n := ClampCoord(v, size);
    assert Distance(c, v) <= Distance(n, v);
  }

  /**
   * GetPixelClamped: the pixel at the nearest in-range position; in-range
   * coordinates are read unchanged.
   */
  function GetPixelClamped(img: Image, x: nat, y: nat): (p: Pixel)
    requires img.Supported() && img.width >= 1 && img.height >= 1
    ensures x < img.width && y < img.height ==> p == GetPixel(img, x, y)
    ensures p == GetPixel(img, ClampCoord(x, img.width), ClampCoord(y, img.height))
  {
    var cx := if x >= img.width then img.width - 1 else x;
    var cy := if y >= img.height then img.height - 1 else y;
    GetPixel(img, cx, cy)
  }
}
