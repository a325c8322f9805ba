/**
  The intensity difference as written: it is declared with the fixed image's
  pixel type. When the fixed and the moving pixel types are both 8-bit
  unsigned integers, the subtraction is
  carried out in `int` and then converted back to the pixel type, that is,
  reduced modulo 256, so a moving intensity below the fixed one yields a large
  positive difference instead of a small negative one. This module models that
  instantiation and contrasts it with the difference taken in the real-valued
  measure type, which the rest of the model uses.
 */
module NarrowPixelDifference {
  import opened MeanSquaresMetric

  /** A pixel of an 8-bit unsigned image. */
  newtype Pixel8 = x: int | 0 <= x < 256

  /** `moving - fixed` of two 8-bit unsigned pixels, converted to the 8-bit
      fixed pixel type: the result is the true difference reduced modulo 256. */
  function DiffAsWritten(fixed: Pixel8, moving: Pixel8): (d: Pixel8)
    ensures d as int == moving as int - fixed as int || d as int == moving as int - fixed as int + 256
    ensures moving < fixed ==> d as int == moving as int - fixed as int + 256
  {
    ((moving as int - fixed as int) % 256) as Pixel8
  }

  /** The metric value as written for 8-bit pixels: the negated square of the
      wrapped difference (the product is formed in `int`, so it cannot wrap). */
  function ValueAsWritten(fixed: Pixel8, moving: Pixel8): (v: int)
    ensures fixed <= moving ==> v == -((moving as int - fixed as int) * (moving as int - fixed as int))
    ensures moving < fixed ==>
      v == -((moving as int - fixed as int + 256) * (moving as int - fixed as int + 256))
  {
    var d := DiffAsWritten(fixed, moving) as int;
    -(d * d)
  }

  /** With fixed intensity 5 and moving intensity 2 the wrapped difference is
      253, so the value is -64009 rather than -9, and exchanging the two
      intensities changes the value, which the squared difference never does. */
  lemma AsWrittenBreaksSymmetry()
    ensures DiffAsWritten(5, 2) == 253
    ensures ValueAsWritten(5, 2) == -64009
    ensures ValueAsWritten(2, 5) == -9
    ensures ValueAsWritten(5, 2) != ValueAsWritten(2, 5)
  {
  }

  /** The as-written value loses the symmetry for almost every pair: for two
      distinct pixels, exchanging them leaves the value unchanged exactly when
      they are 128 apart, the one gap where the wrapped difference `256 - gap`
      equals the gap itself. */
  lemma AsWrittenSymmetricOnlyAtHalfRange(fixed: Pixel8, moving: Pixel8)
    requires moving < fixed
    ensures ValueAsWritten(fixed, moving) == ValueAsWritten(moving, fixed)
      <==> fixed as int - moving as int == 128
  {
  }

  /** The same 8-bit pixels taken as real intensities. */
  function AsSample(fixed: Pixel8, moving: Pixel8): PointArgs
  {
    PointArgs([], [], fixed as real, [], [], moving as real, [])
  }

  /** With the difference formed in the real-valued measure type, the value is
      the negated squared difference of the two pixels whatever their order,
      so exchanging them leaves it unchanged. */
  lemma CorrectedKeepsSymmetry(fixed: Pixel8, moving: Pixel8)
    ensures PointContribution(AsSample(fixed, moving), [], 0).value
      == PointContribution(AsSample(moving, fixed), [], 0).value
    ensures PointContribution(AsSample(fixed, moving), [], 0).value
      == -((moving as real - fixed as real) * (moving as real - fixed as real))
  {
  }

  /** The corrected value at the pixels of the counterexample is -9 both ways. */
  lemma CorrectedOnCounterexample()
    ensures PointContribution(AsSample(5, 2), [], 0).value == -9.0
    ensures PointContribution(AsSample(2, 5), [], 0).value == -9.0
  {
  }
}
