# Baybayin character preprocessing, modelled in Dafny

The recogniser classifies one handwritten Baybayin character. A drawing
or an uploaded image goes through `preprocess_image` in
`utils/image_processing.py` and comes out as a `[1, 64, 64, 1]` tensor for
the classifier. This project models the deterministic part of that chain,
in this order:

- the **polarity step** (`Polarity`): the cleaned binary image is inverted
  when its 0 pixels strictly outnumber its 255 pixels;
- **`crop_to_content`** (`Crop`): the bounding box of all pixels below 255,
  grown by the padding, clamped to the image and sliced with an exclusive end;
- **`resize_with_padding`** (`Resize`): the scale factor, the truncated new
  size, the centred offsets and the 255-filled canvas;
- **`thin_strokes`** (`Thin`): a strict ink-fraction test, then a single 2x2
  erosion;
- **tensor packing** (`Pack`): `v / 255` in a `[1, H, W, 1]` array;
- the driver **`preprocess_image`** and **`process_canvas_drawing`**
  (`Pipeline`). Any exception inside the `try` gives `None`. The canvas is
  binarised by an inverse threshold at 127.

Images are rows of bytes (`Raster.Image`, a `seq<seq<Byte>>`). A stage that
relies on numpy's rectangular shape requires `Rectangular`. The processing
parameters of `config/settings.py` form one immutable `Settings.Config`
value. `Settings.Default` holds the shipped values: 64x64, padding 5 and
threshold 3/10.

The floating-point scale factor and the threshold are exact rationals
(`Arith.Ratio`), compared by cross-multiplication. A threshold is an
`Arith.Fraction`, a ratio with a positive denominator. `int(side * scale)` is
therefore exactly `side * num / den`.

The OpenCV numerics the pipeline calls are fields of `Pipeline.Backend`:
- the front-end filters, from the bilateral filter through the
  morphological closing;
- `cv2.resize` with area interpolation;
- the RGBA-to-grey conversion.

Each backend field is an arbitrary function, and nothing else about these
functions is assumed. The outputs of `clean` (in `Pipeline.Filled`) and
`resample` (in `Resize.ResizeWithPadding`) are forced to the shape OpenCV
promises by `Resize.Conform`. `Conform` is the identity on any output of the
right shape (`Resize.ConformIdentity`). `luminance` maps one RGBA sample to
one grey value, so `Pipeline.CanvasToGray` keeps the canvas's shape by
construction.

The model follows the code as written, including these details:
- the resized sides are truncated with `int` (lines 134-135);
- the crop's slice end is exclusive (line 115), so the margins below and to
  the right of the ink are one smaller than those above and to the left;
- the centring offsets use floor division (lines 140-141), so opposite resize
  margins may differ by one;
- with OpenCV's anchor at kernel element (1, 1), the erosion window of
  pixel `(y, x)` is rows `y-1..y` and columns `x-1..x`;
- erosion is a minimum, so on dark ink it keeps or grows the strokes. The
  docstring of `thin_strokes` (line 149) says "Thin strokes if they are too
  thick"; `Thin.ErodeKeepsInk` proves that the 0 pixels never decrease.

## Model

| member | source | states |
|---|---|---|
| `Raster.Count` | utils/image_processing.py:61-62 | `np.sum(image == v)` of a rectangular image is at most its number of pixels |
| `Raster.CountTransfer` | utils/image_processing.py:61-62 | two images of the same shape related pixel by pixel by "`a` here exactly when `b` there" have equally many `a` and `b` pixels |
| `Raster.CountMonotone` | utils/image_processing.py:157 | if every `a` pixel of one image sits where the other has `b`, the second has at least as many `b` pixels |
| `Raster.CountNone` | utils/image_processing.py:61-62 | an image with no pixel equal to `v` counts zero of them |
| `Raster.CountSet` | utils/image_processing.py:61-62 | setting one pixel that differs from `v` to `v` adds exactly one to the count; with `CountNone` this fixes the count as the number of pixels equal to `v` |
| `Raster.CountWitness` | utils/image_processing.py:61-64 | a positive count of value `v` is witnessed by a pixel equal to `v` |
| `Polarity.Invert` | utils/image_processing.py:65 | `bitwise_not` keeps the shape and maps every pixel `v` to `255 - v` |
| `Polarity.InvertInvolution` | utils/image_processing.py:65 | `bitwise_not` applied twice gives the image back |
| `Polarity.InvertSwapsCounts` | utils/image_processing.py:61-65 | inversion exchanges the number of 0 pixels and the number of 255 pixels |
| `Polarity.NormalizePolarity` | utils/image_processing.py:61-65 | the image changes exactly when 0 is the strict majority (a tie is left alone); then every pixel becomes `255 - v`; afterwards 0 never outnumbers 255; the shape is kept |
| `Polarity.PolarityIdempotent` | utils/image_processing.py:61-65 | applying the polarity step to its own output changes nothing |
| `Crop.FirstWhere` | utils/image_processing.py:106 | the least index satisfying a predicate, or `n` if none does |
| `Crop.LastWhere` | utils/image_processing.py:107 | the greatest index satisfying a predicate, or `-1` if none does |
| `Crop.TightBoxUnique` | utils/image_processing.py:102-107 | an image has at most one tight ink box: all pixels below 255 inside it and ink on each of its four edges |
| `Crop.InkBox` | utils/image_processing.py:102-107 | no box exactly when no pixel is below 255; otherwise the tight box of the ink, i.e. `coords.min` / `coords.max` |
| `Crop.PaddedClamps` | utils/image_processing.py:110-113 | each edge of the grown box is the box edge moved out by the padding or the image border, whichever is nearer: starts never below 0, ends never past `h` or `w` |
| `Crop.Slice` | utils/image_processing.py:115 | `image[y0:y1, x0:x1]` is a `(y1 - y0)` by `(x1 - x0)` image whose pixel `(i, j)` is the input's pixel `(y0 + i, x0 + j)` |
| `Crop.CropToContent` | utils/image_processing.py:88-115 | the result is rectangular and no larger than the input; an image without ink is returned unchanged |
| `Crop.CropIsPaddedBox` | utils/image_processing.py:110-115 | for inked images the crop is exactly rows `[max(0, top-p), min(h, bottom+p))` by columns `[max(0, left-p), min(w, right+p))` of the input |
| `Crop.CropKeepsInk` | utils/image_processing.py:110-115 | with padding at least 1 every ink pixel lies in the cropped window and reappears at its shifted position |
| `Crop.CropMargins` | utils/image_processing.py:110-115 | with padding `p >= 1` the crop keeps `min(p, top)` rows above the ink but only `min(p - 1, h - 1 - bottom)` below, and likewise for columns |
| `Crop.CropZeroPaddingDropsEdge` | utils/image_processing.py:112-115 | with padding 0 the exclusive end drops the last ink row and the last ink column |
| `Crop.SliceWhole` | utils/image_processing.py:115 | the slice over the whole image is the image |
| `Crop.WindowBoxTight` | utils/image_processing.py:115 | slicing a window that contains the tight ink box moves the box by the window's corner and keeps it tight |
| `Crop.CropOfCovered` | utils/image_processing.py:110-115 | an image whose padded tight box already spans it is its own crop |
| `Crop.WindowRecrop` | utils/image_processing.py:110-115 | any image holding exactly the pixels of the padded window is left alone by a second crop with the same padding |
| `Crop.CropIdempotent` | utils/image_processing.py:88-115 | with padding at least 1, cropping a crop gives the same crop |
| `Resize.Scale` | utils/image_processing.py:132 | the scale is one of `tw / w` and `th / h` and is no larger than either |
| `Resize.ScaledSize` | utils/image_processing.py:132-135 | the new sides never exceed the target; with exact arithmetic, the side that set the scale fills its target exactly and the other side is its length times the scale, truncated |
| `Resize.Place` | utils/image_processing.py:129-141 | a failure exactly when the image has an empty side or a truncated side is 0; otherwise a block of exactly the scaled size `(int(h * scale), int(w * scale))`, positive, that fits the canvas at offsets `(target - new) // 2`, so opposite margins differ by 0 or 1 |
| `Resize.Conform` | utils/image_processing.py:136 | the resampler's output is read as an image of exactly the requested shape |
| `Resize.ConformIdentity` | utils/image_processing.py:136 | a resampler output of the requested shape is passed on unchanged |
| `Resize.Paste` | utils/image_processing.py:138-142 | pasting the block gives a `th` by `tw` canvas |
| `Resize.ResizeWithPadding` | utils/image_processing.py:118-144 | a result exactly when the placement succeeds, and then always exactly `th` by `tw` |
| `Resize.ResizeLayout` | utils/image_processing.py:138-142 | every canvas pixel outside the block is 255, and every pixel inside it is the resized image's pixel shifted by the offsets |
| `Resize.ResizeFailsIffElongated` | utils/image_processing.py:132-136 | with exact arithmetic, for a square `t` by `t` target and a non-empty image, resizing fails exactly when one side is more than `t` times the other |
| `Thin.WindowMin` | utils/image_processing.py:161-162 | the eroded value is the least pixel of the 2x2 window ending at the pixel, and is attained in it |
| `Thin.Erode` | utils/image_processing.py:161-162 | erosion keeps the shape, sets each pixel to its window minimum and never increases a pixel |
| `Thin.ErodeKeepsInk` | utils/image_processing.py:147-162 | erosion never lowers the number of 0 pixels, so it cannot remove dark ink |
| `Thin.ThinStrokes` | utils/image_processing.py:147-164 | the shape is kept and no pixel increases |
| `Thin.TooThick` | utils/image_processing.py:157-160 | the test never fires without ink or on an image with no pixels (numpy's `0 / 0` is NaN and compares false), and always fires on an all-ink image when the threshold is below 1 |
| `Thin.ThinBelowThreshold` | utils/image_processing.py:160-164 | an image whose ink fraction is at or below the threshold is returned unchanged |
| `Thin.ThinAtThreshold` | utils/image_processing.py:160 | the test is strict: an ink fraction exactly equal to the threshold leaves the image untouched |
| `Thin.ThinAboveThreshold` | utils/image_processing.py:160-162 | above the threshold the result is exactly one erosion |
| `Thin.MoreInkStaysThick` | utils/image_processing.py:157-160 | an image of the same area with at least as many 0 pixels as a too thick one is too thick too |
| `Thin.ThinStaysThick` | utils/image_processing.py:157-164 | thinning never lowers the ink count, so a too thick image is still too thick afterwards: the single pass cannot bring it under the threshold |
| `Pack.PackTensor` | utils/image_processing.py:77-79 | the tensor has shape `[1, H, W, 1]`; every entry is its pixel over 255 and lies in `[0, 1]` |
| `Pack.UnpackTensor` | page/drawing_canvas.py:113 | scaling back by 255 and truncating gives an `H` by `W` image |
| `Pack.UnpackPack` | utils/image_processing.py:77-79 | unpacking a packed image gives the image back |
| `Pipeline.Filled` | utils/image_processing.py:41-58 | the front end's result is read as an image of its input's shape |
| `Pipeline.Cropped` | utils/image_processing.py:60-68 | the image handed to the resizer is rectangular and no larger than the input |
| `Pipeline.PreprocessImage` | utils/image_processing.py:8-85 | either a `[1, targetH, targetW, 1]` tensor with entries in `[0, 1]`, or `None` exactly when the input is empty or the crop cannot be placed; never a partial tensor |
| `Pipeline.CropNonEmpty` | utils/image_processing.py:102-115 | with padding at least 1 the crop of a non-empty image is non-empty |
| `Pipeline.DefaultFailsOnlyWhenElongated` | utils/image_processing.py:68-85 | with exact arithmetic and the shipped settings, a non-empty image fails exactly when its crop is more than 64 times longer on one side than on the other |
| `Pipeline.BinarizeCanvas` | utils/image_processing.py:178 | a pixel becomes 0 exactly when its grey value exceeds 127, otherwise 255; the shape is kept |
| `Pipeline.BinarizeBinaryIsInvert` | utils/image_processing.py:178 | on an image that is already two-valued the inverse threshold equals `bitwise_not` |
| `Pipeline.CanvasToGray` | utils/image_processing.py:177 | grey conversion keeps the canvas's shape |
| `Pipeline.ProcessCanvas` | utils/image_processing.py:167-179 | a successful result is a `[1, targetH, targetW, 1]` tensor with entries in `[0, 1]` |

## Left out

- Input normalisation (`utils/image_processing.py:20-38`): PIL conversion, RGBA to RGB, dtype casts and colour to grey. The model starts from a grey `uint8` matrix.
- The front-end filters (lines 41-58): the bilateral filter, CLAHE, Gaussian blur, Otsu thresholding, and opening and closing. They are floating-point library numerics, modelled as the arbitrary function `Backend.clean`. The same holds for `cv2.resize` area interpolation (`Backend.resample`) and the `cvtColor` luminance weights (`Backend.luminance`).
- Resize.Conform: a resampler output of the wrong shape is padded or cut with 255. OpenCV never produces one, so this case does not model anything.
- Floating-point rounding: the scale factor, `int(w * scale)`, the ink fraction and `float32` division by 255 are exact rationals here. Where a float product lands just below an integer, the real code truncates to one less. The next three lines name the consequences.
- Resize.ScaledSize: in IEEE doubles `49 * (64 / 49)` is just below 64, so a 49 by 49 crop gets a 63 by 63 block. The model gives 64 by 64, and the side that set the scale does not always fill its target.
- Resize.ResizeFailsIffElongated: in doubles `int(49 * (64 / 3136))` is 0, so a 49 by 3136 crop makes `cv2.resize` raise. The model scales the short side to exactly 1 and places it. Failure can therefore also occur at exactly `t` times elongation, which the model does not predict.
- Pipeline.DefaultFailsOnlyWhenElongated: inherits the previous line, so with the shipped settings a crop exactly 64 times longer on one side can also fail.
- Pipeline.ProcessCanvas: requires a non-empty rectangular canvas, because `cvtColor` on an empty array raises outside the `try` and the exception propagates to the caller.
- The `st.error` message in the `except` branch (line 84): only the `None` result is modelled.
- Negative padding: `crop_padding` is the natural number 5, so Python's negative-index slicing is not modelled.
- Faults other than the ones modelled (an empty image or a zero-sized resize) have no counterpart here. Examples are memory errors and OpenCV argument errors on malformed inputs.
- The UI pages, model loading and caching, and the top-5 ranking by `np.argsort`. They are Streamlit and TensorFlow code outside the preprocessing logic. The default argsort is not stable, so the order of tied scores is unspecified.
