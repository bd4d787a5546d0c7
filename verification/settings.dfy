/** The processing parameters the pipeline reads, as one immutable value
    passed explicitly to every stage (config/settings.py). Only the
    parameters of the modelled stages appear; the filter radii, CLAHE clip
    limit and morphology kernel sizes belong to the opaque front end. */
module Settings {
  import opened Arith

  /** Target canvas size (`IMAGE_SIZE` is (width, height)), the padding added
      around the ink bounding box, and the ink fraction above which strokes
      are thinned. */
  datatype Config = Config(targetW: nat, targetH: nat, cropPadding: nat, thickness: Fraction)

  /** `IMAGE_SIZE = (64, 64)`, `crop_padding = 5`, `thickness_threshold = 0.3`. */
  const Default: Config := Config(64, 64, 5, Ratio(3, 10))
}
