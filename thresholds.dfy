/**
 * Support and confidence thresholds: the percent-or-fraction convention of
 * `_to_fraction` and the support count `ceil(frac * n)` the miner compares
 * against.
 */
module Thresholds {
  import opened Wrappers

  /**
   * `_to_fraction`: a configured threshold above 1 is read as a percentage
   * and divided by 100; one at or below 1 is already a fraction; a missing
   * one counts as 0.
   */
  function ToFraction(v: Option<real>): (f: real)
  {
    match v
    case None => 0.0
    case Some(x) => if x > 1.0 then x / 100.0 else x
  }

  /** A percentage in (1, 100] becomes a fraction in (0.01, 1]. */
  lemma ToFractionOfPercent(x: real)
    requires 1.0 < x <= 100.0
    ensures 0.01 < ToFraction(Some(x)) <= 1.0
    ensures ToFraction(Some(x)) * 100.0 == x
  {
  }

  /** A value in [0, 1] is passed through, so converting twice changes nothing. */
  lemma ToFractionOfFraction(x: real)
    requires 0.0 <= x <= 1.0
    ensures ToFraction(Some(x)) == x
    ensures ToFraction(Some(ToFraction(Some(x)))) == ToFraction(Some(x))
  {
  }

  /**
   * The convention is not monotone at 1: every threshold strictly between 1
   * and 100 is larger than 1.0 yet converts to a smaller fraction, because
   * 1.0 means "every transaction" while, say, 2.0 means two percent.
   */
  lemma ToFractionNotMonotone(x: real)
    requires 1.0 < x < 100.0
    ensures ToFraction(Some(1.0)) == 1.0
    ensures ToFraction(Some(x)) < ToFraction(Some(1.0))
  {
  }

  /** `math.ceil` on an exact real. */
  function Ceil(x: real): (c: int)
    ensures c as real - 1.0 < x <= c as real
  {
    -((-x).Floor)
  }

  /** `min_support_count = math.ceil(min_support_frac * num_transactions)`. */
  function MinSupportCount(frac: real, n: nat): int
  {
    Ceil(frac * n as real)
  }

  /**
   * Comparing a count with the rounded-up threshold is the same as comparing
   * the support fraction `count / n` with `frac`.
   */
  lemma MeetsMinSupport(count: int, frac: real, n: nat)
    ensures count >= MinSupportCount(frac, n) <==> count as real >= frac * n as real
  {
  }

  /** A higher fraction never lowers the support count required. */
  lemma MinSupportCountMonotone(f1: real, f2: real, n: nat)
    requires f1 <= f2
    ensures MinSupportCount(f1, n) <= MinSupportCount(f2, n)
  {
    assert f1 * n as real <= f2 * n as real;
  }
}
