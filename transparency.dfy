/** SlimSnap_Optimizer::has_transparency: a scan of a decoded GD image for
    any pixel whose alpha bits are set. GD packs a true-colour pixel as
    0xAARRGGBB with a 7-bit alpha (0 opaque, 127 transparent). */
module Transparency {

  /** ($rgba & 0x7F000000) >> 24: the 7-bit alpha channel of a pixel. */
  function AlphaBits(rgba: bv32): (alpha: bv32)
    ensures alpha <= 127
    ensures alpha == 0 <==> rgba & 0x7F00_0000 == 0
  {
    (rgba & 0x7F00_0000) >> 24
  }

  /** Some pixel of the image, indexed image[x, y], has a non-zero alpha. */
  predicate AnyAlpha(image: array2<bv32>)
    reads image
  {
    exists x, y :: 0 <= x < image.Length0 && 0 <= y < image.Length1 && AlphaBits(image[x, y]) != 0
  }

  /** Scans columns x = 0, 1, ... and, within a column, rows y = 0, 1, ...,
      stopping at the first pixel with alpha. `isResource` is the guard
      is_resource($image); when it fails nothing is scanned. */
  method HasTransparency(image: array2<bv32>, isResource: bool) returns (found: bool)
    ensures found <==> isResource && AnyAlpha(image)
  {
    if !isResource {
      return false;
    }
    var width, height := image.Length0, image.Length1;
    var x := 0;
    while x < width
      invariant 0 <= x <= width
      invariant forall i, j :: 0 <= i < x && 0 <= j < height ==> AlphaBits(image[i, j]) == 0
    {
      var y := 0;
      while y < height
        invariant 0 <= y <= height
        invariant forall j :: 0 <= j < y ==> AlphaBits(image[x, j]) == 0
      {
        if AlphaBits(image[x, y]) != 0 {
          return true;
        }
        y := y + 1;
      }
      x := x + 1;
    }
    return false;
  }
}
