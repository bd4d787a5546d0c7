/** `thin_strokes`: if the fraction of pixels equal to 0 is strictly above
    the threshold, one `cv2.erode` pass with a 2x2 kernel of ones; otherwise
    the image unchanged. */
module Thin {
  import opened Raster
  import opened Arith

  /** `(y2, x2)` lies in the 2x2 window of `(y, x)`. With OpenCV's default
      anchor, the kernel centre of a 2x2 kernel is its element (1, 1), so the
      window is the pixel itself and its neighbours above and to the left. */
  predicate InWindow(y: int, x: int, y2: int, x2: int) {
    y - 1 <= y2 <= y && x - 1 <= x2 <= x
  }

  /** The pixel, or 255 outside the image: erosion's default border value is
      the largest representable one, so it never wins the minimum. */
  function At(g: Image, y: int, x: int): Byte {
    if 0 <= y < |g| && 0 <= x < |g[y]| then g[y][x] else 255
  }

  /** The eroded value of pixel `(y, x)`: the least pixel of its window. */
  function WindowMin(g: Image, y: nat, x: nat): (m: Byte)
    requires y < |g| && x < |g[y]|
    ensures forall y2, x2 :: InWindow(y, x, y2, x2) && 0 <= y2 < |g| && 0 <= x2 < |g[y2]| ==> m <= g[y2][x2]
    ensures exists y2, x2 :: InWindow(y, x, y2, x2) && 0 <= y2 < |g| && 0 <= x2 < |g[y2]| && m == g[y2][x2]
  {
    var m := Min(Min(At(g, y, x), At(g, y - 1, x)), Min(At(g, y, x - 1), At(g, y - 1, x - 1)));
    assert m <= g[y][x];
    if m == g[y][x] then m
    else if m == At(g, y - 1, x) then assert g[y - 1][x] == m; m
    else if m == At(g, y, x - 1) then assert g[y][x - 1] == m; m
    else assert g[y - 1][x - 1] == m; m
  }

  /** `cv2.erode(image, np.ones((2, 2)), iterations=1)`: every pixel becomes
      the minimum of its window. Shape is kept and no pixel grows. */
  function Erode(g: Image): (r: Image)
    requires Rectangular(g)
    ensures IsRect(r, |g|, Width(g))
    ensures forall y, x :: 0 <= y < |g| && 0 <= x < Width(g) ==> r[y][x] == WindowMin(g, y, x)
    ensures forall y, x :: 0 <= y < |g| && 0 <= x < Width(g) ==> r[y][x] <= g[y][x]
  {
    seq(|g|, y requires 0 <= y < |g| => seq(Width(g), x requires 0 <= x < Width(g) => WindowMin(g, y, x)))
  }

  /** Erosion keeps every 0 pixel at 0, so the count of 0 pixels never drops:
      on dark ink it can only thicken strokes, never thin them. */
  lemma ErodeKeepsInk(g: Image)
    requires Rectangular(g)
    ensures Count(Erode(g), Black) >= Count(g, Black)
  {
    CountMonotone(g, Erode(g), Black, Black);
  }

  /** Number of pixels of the image. */
  function Area(g: Image): nat {
    |g| * Width(g)
  }

  /** `char_pixels / total_pixels > threshold` (line 160), exactly. With no
      pixels numpy's `0 / 0` is NaN and the comparison is false, as here. */
  function TooThick(g: Image, threshold: Fraction): (b: bool)
    ensures b ==> Count(g, Black) > 0
    ensures Rectangular(g) && Area(g) == 0 ==> !b
    ensures Rectangular(g) && Area(g) > 0 && Count(g, Black) == Area(g) && threshold.num < threshold.den ==> b
  {
    var ink, total := Count(g, Black), Area(g);
    if total > 0 then
      MulMono(total, threshold.den, threshold.num);
      RatioLess(threshold, Ratio(ink, total))
    else
      RatioLess(threshold, Ratio(ink, total))
  }

  /** `thin_strokes(image)`: one erosion when the image is too thick,
      otherwise the image itself. */
  function ThinStrokes(g: Image, threshold: Fraction): (r: Image)
    requires Rectangular(g)
    ensures IsRect(r, |g|, Width(g))
    ensures forall y, x :: 0 <= y < |g| && 0 <= x < Width(g) ==> r[y][x] <= g[y][x]
  {
    if TooThick(g, threshold) then Erode(g) else g
  }

  /** At or below the threshold the image is returned as it is (line 164). */
  lemma ThinBelowThreshold(g: Image, threshold: Fraction)
    requires Rectangular(g) && !TooThick(g, threshold)
    ensures ThinStrokes(g, threshold) == g
  {
  }

  /** The test is strict: an image whose ink fraction equals the threshold
      exactly (for 0.3, `10 * ink == 3 * total`) is returned untouched. */
  lemma ThinAtThreshold(g: Image, threshold: Fraction)
    requires Rectangular(g)
    requires Count(g, Black) * threshold.den == threshold.num * Area(g)
    ensures ThinStrokes(g, threshold) == g
  {
    assert !TooThick(g, threshold);
    ThinBelowThreshold(g, threshold);
  }

  /** Above the threshold exactly one erosion is applied; the ratio is not
      looked at again. */
  lemma ThinAboveThreshold(g: Image, threshold: Fraction)
    requires Rectangular(g) && TooThick(g, threshold)
    ensures ThinStrokes(g, threshold) == Erode(g)
  {
  }

  /** An image of the same area with at least as many 0 pixels as a too
      thick one is too thick as well. */
  lemma MoreInkStaysThick(g: Image, r: Image, threshold: Fraction)
    requires TooThick(g, threshold)
    requires Area(r) == Area(g) && Count(r, Black) >= Count(g, Black)
    ensures TooThick(r, threshold)
  {
    RatioLessGrow(threshold, Count(g, Black), Count(r, Black), Area(g));
  }

  /** Thinning never lowers the ink count, so an image that was too thick is
      still too thick afterwards: a re-check would always fire again. */
  lemma ThinStaysThick(g: Image, threshold: Fraction)
    requires Rectangular(g) && TooThick(g, threshold)
    ensures Count(ThinStrokes(g, threshold), Black) >= Count(g, Black)
    ensures TooThick(ThinStrokes(g, threshold), threshold)
  {
    var r := Erode(g);
    ErodeKeepsInk(g);
    assert Area(r) == Area(g);
    MoreInkStaysThick(g, r, threshold);
  }
}
