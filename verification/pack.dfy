/** The tensor packer at the end of `preprocess_image`: every sample is
    divided by 255 and the image gets a leading batch axis and a trailing
    channel axis, `[1, H, W, 1]`. */
module Pack {
  import opened Raster

  /** A 4-D array indexed `[batch][row][column][channel]`. */
  type Tensor = seq<seq<seq<seq<real>>>>

  /** `t` has shape `[1, h, w, 1]`. */
  predicate HasShape(t: Tensor, h: nat, w: nat) {
    && |t| == 1
    && |t[0]| == h
    && (forall y :: 0 <= y < h ==> |t[0][y]| == w)
    && (forall y, x :: 0 <= y < h && 0 <= x < w ==> |t[0][y][x]| == 1)
  }

  /** Every entry of a `[1, h, w, 1]` tensor lies in `[0, 1]`. */
  predicate UnitRange(t: Tensor, h: nat, w: nat)
    requires HasShape(t, h, w)
  {
    forall y, x :: 0 <= y < h && 0 <= x < w ==> 0.0 <= t[0][y][x][0] <= 1.0
  }

  /** `astype('float32') / 255.0` then two `expand_dims` (lines 77-79),
      with exact rationals. Entry `[0][y][x][0]` is pixel `(y, x)` over 255. */
  function PackTensor(g: Image): (t: Tensor)
    requires Rectangular(g)
    ensures HasShape(t, |g|, Width(g))
    ensures UnitRange(t, |g|, Width(g))
    ensures forall y, x :: 0 <= y < |g| && 0 <= x < Width(g) ==> t[0][y][x][0] * 255.0 == g[y][x] as real
  {
    [seq(|g|, y requires 0 <= y < |g| =>
       seq(Width(g), x requires 0 <= x < Width(g) => [(g[y][x] as real) / 255.0]))]
  }

  /** `(processed[0, :, :, 0] * 255).astype(np.uint8)`, how the drawing page
      turns the tensor back into an image for display: scale and truncate. */
  function UnpackTensor(t: Tensor, h: nat, w: nat): (g: Image)
    requires HasShape(t, h, w) && UnitRange(t, h, w)
    ensures IsRect(g, h, w)
  {
    seq(h, y requires 0 <= y < h =>
      seq(w, x requires 0 <= x < w => (t[0][y][x][0] * 255.0).Floor))
  }

  /** Unpacking a packed image gives the image back (with exact arithmetic). */
  lemma UnpackPack(g: Image)
    requires Rectangular(g)
    ensures UnpackTensor(PackTensor(g), |g|, Width(g)) == g
  {
    var r := UnpackTensor(PackTensor(g), |g|, Width(g));
    forall y | 0 <= y < |g|
      ensures r[y] == g[y]
    {
    }
  }
}
