/** `preprocess_image` and `process_canvas_drawing`: the fixed stage order
    polarity, crop, resize, thin, pack after the opaque front end, and the
    `try`/`except` that turns any fault into `None`. */
module Pipeline {
  import opened Raster
  import opened Settings
  import opened Polarity
  import opened Crop
  import opened Resize
  import opened Thin
  import opened Pack

  /** One RGBA sample of the drawing canvas. */
  datatype Rgba = Rgba(red: Byte, green: Byte, blue: Byte, alpha: Byte)

  /** The library numerics the pipeline calls but does not define:
      `clean` is bilateral filter, CLAHE, Gaussian blur, Otsu threshold,
      opening and closing (lines 41-58) on a grey image; `resample` is
      `cv2.resize` with area interpolation (line 136); `luminance` is the
      per-pixel RGBA to grey conversion (line 177). */
  datatype Backend = Backend(clean: Image -> Image, resample: Resampler, luminance: Rgba -> Byte)

  /** The binary image after the front end, with the shape of its input:
      every OpenCV filter used keeps the shape. */
  function Filled(be: Backend, gray: Image): (r: Image)
    requires Rectangular(gray)
    ensures IsRect(r, |gray|, Width(gray))
  {
    Conform(be.clean(gray), |gray|, Width(gray))
  }

  /** The image handed to `resize_with_padding`: polarity fixed, then cropped
      (lines 60-68). */
  function Cropped(cfg: Config, be: Backend, gray: Image): (r: Image)
    requires Rectangular(gray)
    ensures Rectangular(r) && |r| <= |gray| && Width(r) <= Width(gray)
  {
    var filled := Filled(be, gray);
    CropToContent(NormalizePolarity(filled), cfg.cropPadding)
  }

  /** `preprocess_image(image, (targetW, targetH))` on a grey image: a
      `[1, targetH, targetW, 1]` tensor with entries in `[0, 1]`, or `None`
      when some stage raises: the OpenCV filters on an empty image, or the
      resizer on a crop with an empty or truncated-to-zero side. */
  function PreprocessImage(cfg: Config, be: Backend, gray: Image): (r: Option<Tensor>)
    requires Rectangular(gray)
    ensures r.Some? ==> HasShape(r.value, cfg.targetH, cfg.targetW) && UnitRange(r.value, cfg.targetH, cfg.targetW)
    ensures r.None? <==>
      || |gray| == 0 || Width(gray) == 0
      || var c := Cropped(cfg, be, gray); Place(|c|, Width(c), cfg.targetH, cfg.targetW).None?
  {
    if |gray| == 0 || Width(gray) == 0 then None
    else
      match ResizeWithPadding(Cropped(cfg, be, gray), cfg.targetH, cfg.targetW, be.resample)
      case None => None
      case Some(sized) => Some(PackTensor(ThinStrokes(sized, cfg.thickness)))
  }

  /** With a padding of at least one the crop of a non-empty image is never
      empty: a blank image is kept whole and an inked one keeps its ink. */
  lemma CropNonEmpty(g: Image, padding: nat)
    requires Rectangular(g) && |g| > 0 && Width(g) > 0 && padding >= 1
    ensures var c := CropToContent(g, padding); |c| > 0 && Width(c) > 0
  {
    if HasInk(g) {
      var b := InkBox(g).value;
      CropIsPaddedBox(g, b, padding);
      CropMargins(g, b, padding);
      var win := Padded(b, padding, |g|, Width(g));
      assert IsRect(Slice(g, win), win.y1 - win.y0, win.x1 - win.x0);
    }
  }

  /** With the shipped configuration (64 by 64 canvas, padding 5) a non-empty
      image fails only when its crop is more than 64 times longer on one side
      than on the other, so that the short side scales to zero. */
  lemma DefaultFailsOnlyWhenElongated(be: Backend, gray: Image)
    requires Rectangular(gray) && |gray| > 0 && Width(gray) > 0
    ensures var c := Cropped(Default, be, gray);
      && |c| > 0 && Width(c) > 0
      && (PreprocessImage(Default, be, gray).None? <==> (64 * |c| < Width(c) || 64 * Width(c) < |c|))
  {
    var filled := NormalizePolarity(Filled(be, gray));
    CropNonEmpty(filled, Default.cropPadding);
    var c := Cropped(Default, be, gray);
    ResizeFailsIffElongated(c, 64, be.resample);
  }

  /** The inverse threshold of `process_canvas_drawing` at 127 (line 178):
      a pixel becomes 0 exactly when it is brighter than 127, and 255
      otherwise, so the result is binary. */
  function BinarizeCanvas(gray: Image): (r: Image)
    ensures |r| == |gray| && forall y :: 0 <= y < |gray| ==> |r[y]| == |gray[y]|
    ensures forall y, x :: 0 <= y < |gray| && 0 <= x < |gray[y]| ==>
              (r[y][x] == Black <==> gray[y][x] > 127) && (r[y][x] == Black || r[y][x] == White)
  {
    seq(|gray|, y requires 0 <= y < |gray| =>
      seq(|gray[y]|, x requires 0 <= x < |gray[y]| => if gray[y][x] > 127 then Black else White))
  }

  /** On an image that is already binary the inverse threshold is exactly
      `bitwise_not`: it swaps ink and background and changes nothing else. */
  lemma BinarizeBinaryIsInvert(g: Image)
    requires forall y, x :: 0 <= y < |g| && 0 <= x < |g[y]| ==> g[y][x] == Black || g[y][x] == White
    ensures BinarizeCanvas(g) == Invert(g)
  {
    var r, s := BinarizeCanvas(g), Invert(g);
    forall y | 0 <= y < |g|
      ensures r[y] == s[y]
    {
      assert |r[y]| == |s[y]|;
    }
  }

  /** `cv2.cvtColor(canvas, cv2.COLOR_RGBA2GRAY)`, pixel by pixel. */
  function CanvasToGray(canvas: seq<seq<Rgba>>, luminance: Rgba -> Byte): (r: Image)
    ensures |r| == |canvas| && forall y :: 0 <= y < |canvas| ==> |r[y]| == |canvas[y]|
  {
    seq(|canvas|, y requires 0 <= y < |canvas| =>
      seq(|canvas[y]|, x requires 0 <= x < |canvas[y]| => luminance(canvas[y][x])))
  }

  /** `process_canvas_drawing(canvas)`: grey conversion and the inverse
      threshold run outside the `try` (an empty canvas would raise there,
      hence the precondition), then `preprocess_image` on the binary image. */
  function ProcessCanvas(cfg: Config, be: Backend, canvas: seq<seq<Rgba>>): (r: Option<Tensor>)
    requires |canvas| > 0 && |canvas[0]| > 0
    requires forall y :: 0 <= y < |canvas| ==> |canvas[y]| == |canvas[0]|
    ensures r.Some? ==> HasShape(r.value, cfg.targetH, cfg.targetW) && UnitRange(r.value, cfg.targetH, cfg.targetW)
  {
    var drawn := BinarizeCanvas(CanvasToGray(canvas, be.luminance));
    assert Rectangular(drawn);
    PreprocessImage(cfg, be, drawn)
  }
}
