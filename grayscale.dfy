/**
 * Conversion of a 4-channel 8-bit image to a single-channel luminance
 * field, stored row-major with one entry per pixel.
 */
module Grayscale {
  import opened Grid

  /** An 8-bit channel value. */
  type Byte = x: int | 0 <= x < 256

  /** One pixel of a loaded image: red, green, blue and alpha. */
  datatype Rgba = Rgba(r: Byte, g: Byte, b: Byte, a: Byte)

  /** A loaded image: its size and its pixels in row-major order. */
  datatype RgbaImage = RgbaImage(width: int, height: int, elements: seq<Rgba>)

  /** The shape the loader gives every image: one pixel per grid cell. */
  predicate WellFormed(img: RgbaImage)
  {
    img.width >= 0 && img.height >= 0 && |img.elements| == img.width * img.height
  }

  /**
   * The luminance of a pixel, truncated to an integer the way the cast
   * through an unsigned byte truncates it. The weights 0.299, 0.587 and
   * 0.114 are taken as the exact rationals 299/1000, 587/1000 and
   * 114/1000, so the value is floor((299 r + 587 g + 114 b) / 1000). The
   * weights add up to one, so the result always fits a byte, and a grey
   * pixel keeps its level.
   */
  function Luma(p: Rgba): (v: int)
    ensures 0 <= v <= 255
    ensures p.r == p.g == p.b ==> v == p.r
    ensures p.r as int * 299 + p.g as int * 587 + p.b as int * 114 < (v + 1) * 1000
    ensures v * 1000 <= p.r as int * 299 + p.g as int * 587 + p.b as int * 114
  {
    (299 * p.r + 587 * p.g + 114 * p.b) / 1000
  }

  /** Luminance never decreases when one channel grows. */
  lemma LumaMonotone(p: Rgba, q: Rgba)
    requires p.r <= q.r && p.g <= q.g && p.b <= q.b
    ensures Luma(p) <= Luma(q)
  {
    var sp := 299 * p.r + 587 * p.g + 114 * p.b;
    var sq := 299 * q.r + 587 * q.g + 114 * q.b;
    assert sp <= sq;
  }

  /** The grayscale field an image converts to: one luminance per pixel, same order. */
  function GrayField(img: RgbaImage): (gray: seq<int>)
  {
    seq(|img.elements|, k requires 0 <= k < |img.elements| => Luma(img.elements[k]))
  }

  /**
   * The field has one entry per pixel, each in [0, 255], and entry k
   * depends only on pixel k: images that agree on a pixel agree there.
   */
  lemma GrayFieldIsPointwise(img: RgbaImage, other: RgbaImage, k: int)
    requires 0 <= k < |img.elements| && k < |other.elements|
    requires img.elements[k] == other.elements[k]
    ensures |GrayField(img)| == |img.elements|
    ensures 0 <= GrayField(img)[k] <= 255
    ensures GrayField(img)[k] == GrayField(other)[k]
  {
  }

  /**
   * convertToGrayscale: allocates a vector of width*height entries and
   * fills it row by row, entry y*width + x from pixel y*width + x.
   */
  method ConvertToGrayscale(img: RgbaImage) returns (gray: seq<int>)
    requires WellFormed(img)
    ensures gray == GrayField(img)
    ensures |gray| == img.width * img.height
    ensures forall k :: 0 <= k < |gray| ==> 0 <= gray[k] <= 255 && gray[k] == Luma(img.elements[k])
  {
    var width, height := img.width, img.height;
    var grayscale := new int[width * height];
    var y := 0;
    ghost var rowStart := 0;
    while y < height
      invariant 0 <= y <= height
      invariant rowStart == y * width && 0 <= rowStart <= width * height
      invariant forall k :: 0 <= k < rowStart ==> grayscale[k] == Luma(img.elements[k])
    {
      RowsBelow(y, width, height);
      RowsBelow(y + 1, width, height);
      var x := 0;
      while x < width
        invariant 0 <= x <= width
        invariant forall k :: 0 <= k < rowStart + x ==> grayscale[k] == Luma(img.elements[k])
      {
        var idx := y * width + x;
        assert idx == rowStart + x;
        grayscale[idx] := Luma(img.elements[idx]);
        x := x + 1;
      }
      y, rowStart := y + 1, rowStart + width;
    }
    assert rowStart == |img.elements|;
    gray := grayscale[..];
    assert forall k :: 0 <= k < |gray| ==> gray[k] == Luma(img.elements[k]);
  }
}
