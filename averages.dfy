/** Sums and means over exact rationals: the database's SUM and AVG without
    floating point. */
module Averages {

  function Sum(xs: seq<real>): real
  {
    if xs == [] then 0.0 else xs[0] + Sum(xs[1..])
  }

  /** AVG over `xs`, or 0 when `xs` is empty (the views' `or 0` and
      `if avg else 0` fallbacks for an AVG of no rows, which is NULL). */
  function Mean(xs: seq<real>): real
  {
    if |xs| == 0 then 0.0 else Sum(xs) / |xs| as real
  }

  ghost predicate AllBetween(xs: seq<real>, lo: real, hi: real)
  {
    forall i :: 0 <= i < |xs| ==> lo <= xs[i] <= hi
  }

  lemma {:induction false} SumBetween(xs: seq<real>, lo: real, hi: real)
    requires AllBetween(xs, lo, hi)
    ensures |xs| as real * lo <= Sum(xs) <= |xs| as real * hi
  {
    if xs != [] {
      SumBetween(xs[1..], lo, hi);
    }
  }

  /** The mean of values that all lie in [lo, hi] lies in [lo, hi]; the empty
      mean is 0, so it does too whenever 0 does. */
  lemma MeanBetween(xs: seq<real>, lo: real, hi: real)
    requires AllBetween(xs, lo, hi)
    requires |xs| > 0 || lo <= 0.0 <= hi
    ensures lo <= Mean(xs) <= hi
  {
    if |xs| > 0 {
      var n := |xs| as real;
      SumBetween(xs, lo, hi);
      assert Sum(xs) / n >= lo by { assert Sum(xs) >= n * lo; }
      assert Sum(xs) / n <= hi by { assert Sum(xs) <= n * hi; }
    }
  }

  /** `part / whole * 100` for whole > 0: multiplied back by `whole` it gives
      `part * 100`, and it lies in [0, 100] when 0 <= part <= whole. */
  lemma PercentBounds(part: int, whole: int)
    requires whole > 0
    ensures var p := part as real / whole as real * 100.0;
      && p * whole as real == part as real * 100.0
      && (0 <= part <= whole ==> 0.0 <= p <= 100.0)
  {
    var q := part as real / whole as real;
    assert q * whole as real == part as real;
    if 0 <= part <= whole {
      assert q <= 1.0 by {
        if q > 1.0 { assert q * whole as real > 1.0 * whole as real; }
      }
    }
  }
}
