/** `resize_with_padding`: the integer placement arithmetic around the
    resampler. The resampler itself (`cv2.resize` with area interpolation)
    is a parameter; whatever it returns is forced to the requested shape by
    `Conform`, which leaves every correctly shaped result untouched. */
module Resize {
  import opened Raster
  import opened Arith

  /** A resampler: image, requested height, requested width. */
  type Resampler = (Image, nat, nat) -> Image

  /** The size of the resized block and its offset on the canvas. */
  datatype Placement = Placement(newH: nat, newW: nat, offY: nat, offX: nat)

  /** `scale = min(target_w / w, target_h / h)` (line 132), as an exact
      rational. Python's `min` returns its first argument unless the second
      is strictly smaller. The result is the smaller of the two ratios. */
  function Scale(h: nat, w: nat, th: nat, tw: nat): (s: Ratio)
    requires h > 0 && w > 0
    ensures s == Ratio(tw, w) || s == Ratio(th, h)
    ensures RatioLeq(s, Ratio(tw, w)) && RatioLeq(s, Ratio(th, h))
  {
    var sx, sy := Ratio(tw, w), Ratio(th, h);
    if !RatioLeq(sx, sy) then sy else sx
  }

  /** `int(side * scale)`: truncation of a non-negative rational is its floor. */
  function Truncate(side: nat, s: Ratio): nat
    requires s.den > 0
  {
    side * s.num / s.den
  }

  /** `(new_h, new_w) = (int(h * scale), int(w * scale))` (lines 134-135).
      Neither exceeds its target, and the side that set the scale fills its
      target exactly, so the fit always touches the canvas on one axis. */
  function ScaledSize(h: nat, w: nat, th: nat, tw: nat): (r: (nat, nat))
    requires h > 0 && w > 0
    ensures r.0 <= th && r.1 <= tw
    ensures r.0 == th || r.1 == tw
    ensures RatioLeq(Ratio(tw, w), Ratio(th, h)) ==> r == (h * tw / w, tw)
    ensures !RatioLeq(Ratio(tw, w), Ratio(th, h)) ==> r == (th, w * th / h)
  {
    var s := Scale(h, w, th, tw);
    if s == Ratio(tw, w) then
      MulDivCancel(tw, w);
      DivBound(h * tw, th, w);
      (Truncate(h, s), Truncate(w, s))
    else
      MulDivCancel(th, h);
      DivBound(w * th, tw, h);
      (Truncate(h, s), Truncate(w, s))
  }

  /** The resized block's size and its centred offsets
      `((target_h - new_h) // 2, (target_w - new_w) // 2)` (lines 140-141), or
      `None` when the image has an empty side (`target_w / w` divides by
      zero) or a scaled side truncates to zero (`cv2.resize` rejects an
      empty size). */
  function Place(h: nat, w: nat, th: nat, tw: nat): (r: Option<Placement>)
    ensures r.Some? ==> var p := r.value;
      && 0 < p.newH <= th && 0 < p.newW <= tw
      && p.offY + p.newH <= th && p.offX + p.newW <= tw
      && 0 <= (th - p.newH - p.offY) - p.offY <= 1
      && 0 <= (tw - p.newW - p.offX) - p.offX <= 1
    ensures r.None? <==> h == 0 || w == 0 || ScaledSize(h, w, th, tw).0 == 0 || ScaledSize(h, w, th, tw).1 == 0
    ensures r.Some? ==> h > 0 && w > 0 && (r.value.newH, r.value.newW) == ScaledSize(h, w, th, tw)
  {
    if h == 0 || w == 0 then None
    else
      var (nh, nw) := ScaledSize(h, w, th, tw);
      if nh == 0 || nw == 0 then None
      else Some(Placement(nh, nw, (th - nh) / 2, (tw - nw) / 2))
  }

  /** The resampler's result read as an `h` by `w` image: the identity on
      any result of that shape (`ConformIdentity`). */
  function Conform(g: Image, h: nat, w: nat): (r: Image)
    ensures IsRect(r, h, w)
  {
    seq(h, y requires 0 <= y < h =>
      seq(w, x requires 0 <= x < w => if y < |g| && x < |g[y]| then g[y][x] else White))
  }

  lemma ConformIdentity(g: Image, h: nat, w: nat)
    requires IsRect(g, h, w)
    ensures Conform(g, h, w) == g
  {
    var r := Conform(g, h, w);
    forall y | 0 <= y < h
      ensures r[y] == g[y]
    {
    }
  }

  /** A `th` by `tw` canvas of 255 with `block` written at the placement
      (lines 138-142). */
  function Paste(th: nat, tw: nat, p: Placement, block: Image): (r: Image)
    requires IsRect(block, p.newH, p.newW)
    requires p.offY + p.newH <= th && p.offX + p.newW <= tw
    ensures IsRect(r, th, tw)
  {
    seq(th, y requires 0 <= y < th =>
      seq(tw, x requires 0 <= x < tw =>
        if p.offY <= y < p.offY + p.newH && p.offX <= x < p.offX + p.newW
        then block[y - p.offY][x - p.offX] else White))
  }

  /** Pixel `(y, x)` of the canvas lies in the pasted block. */
  predicate InBlock(p: Placement, y: int, x: int) {
    p.offY <= y < p.offY + p.newH && p.offX <= x < p.offX + p.newW
  }

  /** `resize_with_padding(image, (tw, th))`: the image scaled to fit, pasted
      centred on a `th` by `tw` canvas of 255, or `None` where the source
      raises. */
  function ResizeWithPadding(g: Image, th: nat, tw: nat, resample: Resampler): (r: Option<Image>)
    requires Rectangular(g)
    ensures r.Some? <==> Place(|g|, Width(g), th, tw).Some?
    ensures r.Some? ==> IsRect(r.value, th, tw)
  {
    match Place(|g|, Width(g), th, tw)
    case None => None
    case Some(p) => Some(Paste(th, tw, p, Conform(resample(g, p.newH, p.newW), p.newH, p.newW)))
  }

  /** Every canvas pixel outside the block is background, and every pixel in
      it is the resampled image's pixel at the shifted position. */
  lemma ResizeLayout(g: Image, th: nat, tw: nat, resample: Resampler, y: int, x: int)
    requires Rectangular(g)
    requires ResizeWithPadding(g, th, tw, resample).Some?
    requires 0 <= y < th && 0 <= x < tw
    ensures var p := Place(|g|, Width(g), th, tw).value;
      var r := ResizeWithPadding(g, th, tw, resample).value;
      var block := Conform(resample(g, p.newH, p.newW), p.newH, p.newW);
      && (!InBlock(p, y, x) ==> r[y][x] == White)
      && (InBlock(p, y, x) ==> r[y][x] == block[y - p.offY][x - p.offX])
  {
  }

  /** For a square `t` by `t` target and a non-empty image, resizing fails
      exactly when one side is more than `t` times the other, so that the
      short side truncates to zero. */
  lemma ResizeFailsIffElongated(g: Image, t: nat, resample: Resampler)
    requires Rectangular(g) && |g| > 0 && Width(g) > 0 && t > 0
    ensures ResizeWithPadding(g, t, t, resample).None? <==> (t * |g| < Width(g) || t * Width(g) < |g|)
  {
    var h, w := |g|, Width(g);
    if t * h <= t * w {
      DivZero(h * t, w);
      assert t * |g| < Width(g) <==> h * t < w;
      MulMono(t, h, w);
      assert !(t * w < h);
    } else {
      DivZero(w * t, h);
      MulMono(t, h, w);
      assert !(t * h < w);
    }
  }
}
