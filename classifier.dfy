/** The bucket classifier of src/main.cxx: luminance, then quantisation by a fixed border. */
module Classifier {
  import opened Bitmaps

  const MaxPixelValue: nat := 256
  const BucketCount: nat := 256
  /** The width of one bucket in luminance units: 256 / 256 = 1. */
  const Border: nat := MaxPixelValue / BucketCount

  /** Perceptual weights of the three channels; they add up to exactly 1. */
  const RedWeight: real := 0.2126
  const GreenWeight: real := 0.7152
  const BlueWeight: real := 0.0722

  /** Weighted sum of the channels, computed exactly (the source uses doubles). */
  function Luminance(p: Pixel): (y: real)
    ensures 0.0 <= y <= 255.0
  {
    RedWeight * p.red as real + GreenWeight * p.green as real + BlueWeight * p.blue as real
  }

  /**
   * The histogram bucket of a pixel: the luminance divided by the border, truncated.
   * The luminance is never negative, so truncation toward zero is the floor.
   */
  function Bucket(p: Pixel): (k: int)
    ensures 0 <= k < BucketCount
  {
    (Luminance(p) / Border as real).Floor
  }
}
