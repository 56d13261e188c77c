/** Fuzzy comparison of doubles against the library's base threshold. The
    process-wide mutable threshold is a fixed constant here. */
module GeometryExtensions {
  import opened Wrappers

  /** The library's base threshold for geometric comparisons. */
  const BaseThreshold: real := 0.001

  function Abs(x: real): real { if x < 0.0 then -x else x }

  /** True iff the two values differ by strictly less than the threshold; a
      missing threshold means `BaseThreshold`. */
  function AlmostEqualTo(d: real, other: real, threshold: Option<real>): (r: bool)
    ensures threshold.None? ==> (r <==> -BaseThreshold < d - other < BaseThreshold)
    ensures threshold.Some? ==> (r <==> -threshold.value < d - other < threshold.value)
  {
    var t := match threshold case Some(v) => v case None => BaseThreshold;
    Abs(d - other) < t
  }

  lemma AlmostEqualToSymmetric(d: real, other: real, threshold: Option<real>)
    ensures AlmostEqualTo(d, other, threshold) == AlmostEqualTo(other, d, threshold)
  {
  }

  /** Every value is almost equal to itself under a positive threshold, and the
      default threshold is positive. */
  lemma AlmostEqualToReflexive(d: real, threshold: Option<real>)
    requires threshold.Some? ==> threshold.value > 0.0
    ensures AlmostEqualTo(d, d, threshold)
  {
  }

  /** The comparison is strict, so a threshold that is not positive accepts
      nothing, not even equal values. */
  lemma AlmostEqualToNonPositiveThreshold(d: real, other: real, t: real)
    requires t <= 0.0
    ensures !AlmostEqualTo(d, other, Some(t))
  {
  }
}
