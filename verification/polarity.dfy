/** The polarity normaliser of `preprocess_image`: the majority colour of the
    cleaned binary image is taken to be background, so an image with more
    black (0) than white (255) pixels is inverted. */
module Polarity {
  import opened Raster

  /** `cv2.bitwise_not` on `uint8`: every sample `v` becomes `255 - v`. */
  function Invert(g: Image): (r: Image)
    ensures |r| == |g|
    ensures forall y :: 0 <= y < |g| ==> |r[y]| == |g[y]|
    ensures forall y, x :: 0 <= y < |g| && 0 <= x < |g[y]| ==> r[y][x] == 255 - g[y][x]
  {
    seq(|g|, y requires 0 <= y < |g| => seq(|g[y]|, x requires 0 <= x < |g[y]| => 255 - g[y][x]))
  }

  /** Inverting twice gives the image back. */
  lemma InvertInvolution(g: Image)
    ensures Invert(Invert(g)) == g
  {
    var r := Invert(Invert(g));
    assert |r| == |g|;
    forall y | 0 <= y < |g|
      ensures r[y] == g[y]
    {
      assert |r[y]| == |g[y]|;
    }
  }

  /** Inversion exchanges the number of black and white pixels. */
  lemma InvertSwapsCounts(g: Image)
    ensures Count(Invert(g), Black) == Count(g, White)
    ensures Count(Invert(g), White) == Count(g, Black)
  {
    CountTransfer(g, Invert(g), White, Black);
    CountTransfer(g, Invert(g), Black, White);
  }

  /** True when black pixels strictly outnumber white ones (line 64). */
  predicate MostlyBlack(g: Image) {
    Count(g, Black) > Count(g, White)
  }

  /** The polarity step: invert exactly when black is the strict majority;
      a tie is left alone. Afterwards black never outnumbers white. */
  function NormalizePolarity(g: Image): (r: Image)
    ensures |r| == |g| && forall y :: 0 <= y < |g| ==> |r[y]| == |g[y]|
    ensures r == g <==> !MostlyBlack(g)
    ensures MostlyBlack(g) ==> forall y, x :: 0 <= y < |g| && 0 <= x < |g[y]| ==> r[y][x] == 255 - g[y][x]
    ensures !MostlyBlack(r)
  {
    if MostlyBlack(g) then
      InvertSwapsCounts(g);
      CountWitness(g, Black);
      var y, x :| 0 <= y < |g| && 0 <= x < |g[y]| && g[y][x] == Black;
      assert Invert(g)[y][x] != g[y][x];
      Invert(g)
    else
      g
  }

  /** Applying the polarity step to its own output changes nothing. */
  lemma PolarityIdempotent(g: Image)
    ensures NormalizePolarity(NormalizePolarity(g)) == NormalizePolarity(g)
  {
  }
}
