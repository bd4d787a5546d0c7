/** `crop_to_content`: the bounding box of every pixel below 255, grown by the
    padding, clamped to the image and sliced with an exclusive end. */
module Crop {
  import opened Raster

  /** The first index below `n` satisfying `p`, or `n` when there is none. */
  function FirstWhere(n: nat, p: nat -> bool): (r: nat)
    ensures r <= n
    ensures r < n ==> p(r)
    ensures forall i :: 0 <= i < r ==> !p(i)
  {
    if n == 0 then 0
    else
      var f := FirstWhere(n - 1, p);
      if f < n - 1 then f else if p(n - 1) then n - 1 else n
  }

  /** The last index below `n` satisfying `p`, or -1 when there is none. */
  function LastWhere(n: nat, p: nat -> bool): (r: int)
    ensures -1 <= r < n
    ensures 0 <= r ==> p(r)
    ensures forall i :: r < i < n ==> !p(i)
  {
    if n == 0 then -1
    else if p(n - 1) then n - 1
    else LastWhere(n - 1, p)
  }

  /** Pixel `(y, x)` exists and is ink, i.e. is strictly below 255 (line 102). */
  predicate InkAt(g: Image, y: int, x: int) {
    0 <= y < |g| && 0 <= x < |g[y]| && g[y][x] < 255
  }

  predicate RowHasInk(g: Image, y: int) {
    0 <= y < |g| && exists x :: 0 <= x < |g[y]| && InkAt(g, y, x)
  }

  predicate ColHasInk(g: Image, x: int) {
    exists y :: 0 <= y < |g| && InkAt(g, y, x)
  }

  ghost predicate HasInk(g: Image) {
    exists y, x :: InkAt(g, y, x)
  }

  /** Inclusive extremes of the ink coordinates: `y_min, x_min, y_max, x_max`. */
  datatype Box = Box(top: nat, left: nat, bottom: nat, right: nat)

  /** A half-open rectangle of rows `y0 .. y1` and columns `x0 .. x1`. */
  datatype Window = Window(y0: nat, y1: nat, x0: nat, x1: nat)

  /** `b` is the smallest box holding every ink pixel: all ink lies inside it
      and each of its four edges touches ink. */
  ghost predicate IsTightBox(g: Image, b: Box) {
    && b.top <= b.bottom < |g|
    && b.left <= b.right < Width(g)
    && (forall y, x :: InkAt(g, y, x) ==> b.top <= y <= b.bottom && b.left <= x <= b.right)
    && RowHasInk(g, b.top) && RowHasInk(g, b.bottom)
    && ColHasInk(g, b.left) && ColHasInk(g, b.right)
  }

  /** An image has at most one tight box. */
  lemma TightBoxUnique(g: Image, b: Box, c: Box)
    requires IsTightBox(g, b) && IsTightBox(g, c)
    ensures b == c
  {
    var x1 :| InkAt(g, b.top, x1);
    var x2 :| InkAt(g, c.top, x2);
    var x3 :| InkAt(g, b.bottom, x3);
    var x4 :| InkAt(g, c.bottom, x4);
    var y1 :| InkAt(g, y1, b.left);
    var y2 :| InkAt(g, y2, c.left);
    var y3 :| InkAt(g, y3, b.right);
    var y4 :| InkAt(g, y4, c.right);
  }

  /** The bounding box of the ink coordinates (`coords.min` / `coords.max`,
      lines 102-107), or `None` when there is no ink. */
  function InkBox(g: Image): (r: Option<Box>)
    requires Rectangular(g)
    ensures r.None? <==> !HasInk(g)
    ensures r.Some? ==> IsTightBox(g, r.value)
  {
    var rowInk := (y: nat) => RowHasInk(g, y);
    var colInk := (x: nat) => ColHasInk(g, x);
    var top := FirstWhere(|g|, rowInk);
    if top == |g| then
      assert !HasInk(g) by {
        forall y, x | 0 <= y < |g| && 0 <= x < |g[y]|
          ensures !InkAt(g, y, x)
        {
          assert !rowInk(y);
        }
      }
      None
    else
      var bottom := LastWhere(|g|, rowInk);
      var left := FirstWhere(Width(g), colInk);
      var right := LastWhere(Width(g), colInk);
      assert rowInk(top);
      var x0 :| 0 <= x0 < |g[top]| && InkAt(g, top, x0);
      assert colInk(x0);
      assert top <= bottom && left <= x0 <= right;
      assert forall y, x :: InkAt(g, y, x) ==> top <= y <= bottom && left <= x <= right by {
        forall y, x | InkAt(g, y, x)
          ensures top <= y <= bottom && left <= x <= right
        {
          assert rowInk(y) && colInk(x);
        }
      }
      Some(Box(top, left, bottom, right))
  }

  function Max0(a: int): nat {
    if a < 0 then 0 else a
  }

  /** The box grown by `padding` on every side and clamped to an `h` by `w`
      image (lines 110-113); the grown bottom and right edges are later used
      as exclusive slice ends. */
  function Padded(b: Box, padding: nat, h: nat, w: nat): Window {
    Window(Max0(b.top - padding), Min(h, b.bottom + padding),
           Max0(b.left - padding), Min(w, b.right + padding))
  }

  /** Each edge of the padded window is the grown edge or the image border,
      whichever is nearer the box: the start never leaves the image, the end
      never passes it. */
  lemma PaddedClamps(b: Box, padding: nat, h: nat, w: nat)
    ensures var r := Padded(b, padding, h, w);
      && b.top - padding <= r.y0 <= b.top && (r.y0 == 0 || r.y0 == b.top - padding)
      && b.left - padding <= r.x0 <= b.left && (r.x0 == 0 || r.x0 == b.left - padding)
      && r.y1 <= h && r.y1 <= b.bottom + padding && (r.y1 == h || r.y1 == b.bottom + padding)
      && r.x1 <= w && r.x1 <= b.right + padding && (r.x1 == w || r.x1 == b.right + padding)
  {
  }

  /** `image[y0:y1, x0:x1]`. */
  function Slice(g: Image, win: Window): (r: Image)
    requires Rectangular(g)
    requires win.y0 <= win.y1 <= |g| && win.x0 <= win.x1 <= Width(g)
    ensures IsRect(r, win.y1 - win.y0, win.x1 - win.x0)
    ensures forall y, x :: 0 <= y < win.y1 - win.y0 && 0 <= x < win.x1 - win.x0 ==>
              r[y][x] == g[win.y0 + y][win.x0 + x]
    decreases win.y1 - win.y0
  {
    if win.y0 == win.y1 then []
    else [g[win.y0][win.x0 .. win.x1]] + Slice(g, win.(y0 := win.y0 + 1))
  }

  lemma {:induction false} SliceAt(g: Image, win: Window, i: int, j: int)
    requires Rectangular(g)
    requires win.y0 <= win.y1 <= |g| && win.x0 <= win.x1 <= Width(g)
    requires 0 <= i < win.y1 - win.y0 && 0 <= j < win.x1 - win.x0
    ensures Slice(g, win)[i][j] == g[win.y0 + i][win.x0 + j]
    decreases i
  {
    if i > 0 {
      SliceAt(g, win.(y0 := win.y0 + 1), i - 1, j);
    }
  }

  /** The padded window of a tight box is a valid slice of the image. */
  lemma PaddedFits(g: Image, b: Box, padding: nat)
    requires Rectangular(g) && IsTightBox(g, b)
    ensures var win := Padded(b, padding, |g|, Width(g));
      win.y0 <= win.y1 <= |g| && win.x0 <= win.x1 <= Width(g)
  {
  }

  /** `crop_to_content(image, padding)`: a blank image is returned as is;
      otherwise the padded ink box is cut out. The result is never larger
      than the input. */
  function CropToContent(g: Image, padding: nat): (r: Image)
    requires Rectangular(g)
    ensures Rectangular(r)
    ensures |r| <= |g| && Width(r) <= Width(g)
    ensures !HasInk(g) ==> r == g
  {
    match InkBox(g)
    case None => g
    case Some(b) =>
      PaddedFits(g, b, padding);
      Slice(g, Padded(b, padding, |g|, Width(g)))
  }

  /** For an inked image the crop is exactly rows
      `max(0, y_min - p) .. min(h, y_max + p)` and columns
      `max(0, x_min - p) .. min(w, x_max + p)`, end exclusive, of the input,
      where the extremes are those of the (unique) tight ink box. */
  lemma CropIsPaddedBox(g: Image, b: Box, padding: nat)
    requires Rectangular(g) && IsTightBox(g, b)
    ensures var win := Padded(b, padding, |g|, Width(g));
      && win.y0 <= win.y1 <= |g| && win.x0 <= win.x1 <= Width(g)
      && CropToContent(g, padding) == Slice(g, win)
  {
    assert HasInk(g) by {
      var x :| InkAt(g, b.top, x);
    }
    TightBoxUnique(g, InkBox(g).value, b);
  }

  /** With a padding of at least one, every ink pixel survives the crop at its
      shifted position. */
  lemma CropKeepsInk(g: Image, b: Box, padding: nat, y: int, x: int)
    requires Rectangular(g) && IsTightBox(g, b) && padding >= 1
    requires InkAt(g, y, x)
    ensures var win := Padded(b, padding, |g|, Width(g));
      && win.y0 <= y < win.y1 <= |g| && win.x0 <= x < win.x1 <= Width(g)
      && CropToContent(g, padding) == Slice(g, win)
      && Slice(g, win)[y - win.y0][x - win.x0] == g[y][x]
  {
    CropIsPaddedBox(g, b, padding);
    var win := Padded(b, padding, |g|, Width(g));
    assert b.top <= y <= b.bottom && b.left <= x <= b.right;
    assert win.y0 <= y < win.y1 && win.x0 <= x < win.x1;
    SliceAt(g, win, y - win.y0, x - win.x0);
  }

  /** Because the grown end is used exclusively, a padding `p >= 1` leaves
      `min(p, y_min)` rows above the ink but only `min(p - 1, h - 1 - y_max)`
      below it, and likewise `min(p, x_min)` columns left but only
      `min(p - 1, w - 1 - x_max)` right. */
  lemma CropMargins(g: Image, b: Box, padding: nat)
    requires Rectangular(g) && IsTightBox(g, b) && padding >= 1
    ensures var win := Padded(b, padding, |g|, Width(g));
      && b.top - win.y0 == Min(padding, b.top)
      && win.y1 - 1 - b.bottom == Min(padding - 1, |g| - 1 - b.bottom)
      && b.left - win.x0 == Min(padding, b.left)
      && win.x1 - 1 - b.right == Min(padding - 1, Width(g) - 1 - b.right)
  {
  }

  /** With no padding the exclusive end drops the last ink row and the last
      ink column, both of which do hold ink. */
  lemma CropZeroPaddingDropsEdge(g: Image, b: Box)
    requires Rectangular(g) && IsTightBox(g, b)
    ensures var win := Padded(b, 0, |g|, Width(g));
      && win.y1 == b.bottom && win.x1 == b.right
      && RowHasInk(g, b.bottom) && ColHasInk(g, b.right)
  {
  }

  /** The slice covering the whole image is the image itself. */
  lemma SliceWhole(g: Image)
    requires Rectangular(g)
    ensures Slice(g, Window(0, |g|, 0, Width(g))) == g
  {
    var r := Slice(g, Window(0, |g|, 0, Width(g)));
    forall y | 0 <= y < |g|
      ensures r[y] == g[y]
    {
    }
  }

  /** An image whose pixels are those of the window `win` of `g` has, as its
      tight box, the tight box of `g` moved by the window's corner, as long as
      the window covers that box. */
  lemma WindowBoxTight(g: Image, b: Box, win: Window, r: Image)
    requires Rectangular(g) && IsTightBox(g, b)
    requires win.y0 <= b.top && b.bottom < win.y1 <= |g|
    requires win.x0 <= b.left && b.right < win.x1 <= Width(g)
    requires IsRect(r, win.y1 - win.y0, win.x1 - win.x0)
    requires forall i, j :: 0 <= i < win.y1 - win.y0 && 0 <= j < win.x1 - win.x0 ==>
               r[i][j] == g[win.y0 + i][win.x0 + j]
    ensures IsTightBox(r, Box(b.top - win.y0, b.left - win.x0, b.bottom - win.y0, b.right - win.x0))
  {
    var c := Box(b.top - win.y0, b.left - win.x0, b.bottom - win.y0, b.right - win.x0);
    assert Width(r) == win.x1 - win.x0;
    forall i, j | InkAt(r, i, j)
      ensures c.top <= i <= c.bottom && c.left <= j <= c.right
    {
      assert InkAt(g, win.y0 + i, win.x0 + j);
    }
    var xt :| 0 <= xt < |g[b.top]| && InkAt(g, b.top, xt);
    assert InkAt(r, c.top, xt - win.x0);
    var xb :| 0 <= xb < |g[b.bottom]| && InkAt(g, b.bottom, xb);
    assert InkAt(r, c.bottom, xb - win.x0);
    var yl :| 0 <= yl < |g| && InkAt(g, yl, b.left);
    assert InkAt(r, yl - win.y0, c.left);
    var yr :| 0 <= yr < |g| && InkAt(g, yr, b.right);
    assert InkAt(r, yr - win.y0, c.right);
  }

  /** With a padding of at least one, cropping an already cropped image
      changes nothing: the ink box of the crop, grown and clamped again,
      covers the whole crop. */
  lemma CropIdempotent(g: Image, padding: nat)
    requires Rectangular(g) && padding >= 1
    ensures CropToContent(CropToContent(g, padding), padding) == CropToContent(g, padding)
  {
    if HasInk(g) {
      var b := InkBox(g).value;
      CropIsPaddedBox(g, b, padding);
      RecropWhole(g, b, padding);
    }
  }

  /** Padding the moved box again by at least one reaches every edge of the
      first padded window. */
  lemma RepadCovers(b: Box, padding: nat, h: nat, w: nat, c: Box, hh: nat, ww: nat)
    requires b.top <= b.bottom < h && b.left <= b.right < w && padding >= 1
    requires var win := Padded(b, padding, h, w);
      && c == Box(b.top - win.y0, b.left - win.x0, b.bottom - win.y0, b.right - win.x0)
      && hh == win.y1 - win.y0 && ww == win.x1 - win.x0
    ensures Padded(c, padding, hh, ww) == Window(0, hh, 0, ww)
  {
  }

  lemma RectIsRectangular(g: Image, h: nat, w: nat)
    requires IsRect(g, h, w) && h > 0
    ensures Rectangular(g) && Width(g) == w
  {
  }

  /** An image whose padded tight box already spans it is its own crop. */
  lemma CropOfCovered(r: Image, c: Box, padding: nat)
    requires Rectangular(r) && IsTightBox(r, c)
    requires Padded(c, padding, |r|, Width(r)) == Window(0, |r|, 0, Width(r))
    ensures CropToContent(r, padding) == r
  {
    CropIsPaddedBox(r, c, padding);
    SliceWhole(r);
  }

  /** Any image holding exactly the pixels of the padded window of `g` is
      left alone by a second crop with the same padding. */
  lemma WindowRecrop(g: Image, b: Box, padding: nat, r: Image)
    requires Rectangular(g) && IsTightBox(g, b) && padding >= 1
    requires var win := Padded(b, padding, |g|, Width(g));
      && win.y0 <= b.top && b.bottom < win.y1 <= |g|
      && win.x0 <= b.left && b.right < win.x1 <= Width(g)
      && IsRect(r, win.y1 - win.y0, win.x1 - win.x0)
      && forall i, j :: 0 <= i < win.y1 - win.y0 && 0 <= j < win.x1 - win.x0 ==>
           r[i][j] == g[win.y0 + i][win.x0 + j]
    ensures CropToContent(r, padding) == r
  {
    var win := Padded(b, padding, |g|, Width(g));
    var c := Box(b.top - win.y0, b.left - win.x0, b.bottom - win.y0, b.right - win.x0);
    WindowBoxTight(g, b, win, r);
    RectIsRectangular(r, win.y1 - win.y0, win.x1 - win.x0);
    RepadCovers(b, padding, |g|, Width(g), c, |r|, Width(r));
    CropOfCovered(r, c, padding);
  }

  lemma RecropWhole(g: Image, b: Box, padding: nat)
    requires Rectangular(g) && IsTightBox(g, b) && padding >= 1
    ensures var win := Padded(b, padding, |g|, Width(g));
      && win.y0 <= win.y1 <= |g| && win.x0 <= win.x1 <= Width(g)
      && CropToContent(Slice(g, win), padding) == Slice(g, win)
  {
    var win := Padded(b, padding, |g|, Width(g));
    WindowRecrop(g, b, padding, Slice(g, win));
  }
}
