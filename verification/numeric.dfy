/**
 * Exact-real arithmetic shared by the grading and analytics code:
 * the two roundings the system uses and folds over sequences of scores.
 */
module Numeric {

  /** A real that is a whole number of hundredths, as every two-place rounding yields. */
  predicate IsCents(r: real)
  {
    (r * 100.0).Floor as real == r * 100.0
  }

  function Abs(x: real): real
  {
    if x < 0.0 then -x else x
  }

  /** `k` hundredths. */
  lemma Hundredths(k: int)
    ensures (k as real / 100.0) * 100.0 == k as real
    ensures IsCents(k as real / 100.0)
    ensures ((k as real / 100.0) * 100.0).Floor == k
  {
  }

  /**
   * `parseFloat(x.toFixed(2))`: the nearest multiple of 0.01, halves rounded away
   * from zero (the sign is handled separately and the magnitude rounded half-up).
   */
  function Round2(x: real): (r: real)
    ensures IsCents(r)
    ensures x >= 0.0 ==> -1.0 / 200.0 < r - x <= 1.0 / 200.0
    ensures x <= 0.0 ==> -1.0 / 200.0 <= r - x < 1.0 / 200.0
    ensures x >= 0.0 ==> r >= 0.0
    ensures x <= 0.0 ==> r <= 0.0
    ensures 0.0 <= x <= 100.0 ==> 0.0 <= r <= 100.0
  {
    if x >= 0.0 then RoundHalfUp2(x)
    else
      var y := RoundHalfUp2(-x);
      Hundredths(-(y * 100.0).Floor);
      -y
  }

  /** A whole hundred is already rounded. */
  lemma Round2Hundred()
    ensures Round2(100.0) == 100.0
  {
    assert (100.0 * 100.0 + 0.5).Floor == 10000;
  }

  /** Round a non-negative real to two places, halves upwards. */
  function RoundHalfUp2(x: real): (r: real)
    requires x >= 0.0
    ensures IsCents(r)
    ensures -1.0 / 200.0 < r - x <= 1.0 / 200.0
    ensures r >= 0.0
    ensures x <= 100.0 ==> r <= 100.0
  {
    var k := (x * 100.0 + 0.5).Floor;
    Hundredths(k);
    k as real / 100.0
  }

  /** The whole number nearest to `y`, an exact half going to the even neighbour. */
  function HalfEven(y: real): (k: int)
    ensures -0.5 <= k as real - y <= 0.5
    ensures (k as real - y == 0.5 || y - k as real == 0.5) ==> k % 2 == 0
  {
    var n := y.Floor;
    var frac := y - n as real;
    if frac > 0.5 then n + 1 else if frac < 0.5 then n else if n % 2 == 0 then n else n + 1
  }

  /**
   * MongoDB's `$round` to two places: the nearest multiple of 0.01, with an
   * exact half rounded to the even neighbour.
   */
  function RoundHalfEven2(x: real): (r: real)
    ensures IsCents(r)
    ensures -1.0 / 200.0 <= r - x <= 1.0 / 200.0
    ensures Abs(r - x) == 1.0 / 200.0 ==> (r * 100.0).Floor % 2 == 0
    ensures 0.0 <= x <= 100.0 ==> 0.0 <= r <= 100.0
  {
    var k := HalfEven(x * 100.0);
    Hundredths(k);
    k as real / 100.0
  }

  /** Two whole numbers of hundredths within half a hundredth of each other are equal. */
  lemma CentsClose(a: real, b: real)
    requires IsCents(a) && IsCents(b)
    requires -1.0 / 100.0 < a - b < 1.0 / 100.0
    ensures a == b
  {
    var i, j := (a * 100.0).Floor, (b * 100.0).Floor;
    assert -1 < i - j < 1;
  }

  /** No multiple of 0.01 lies closer to `x` than `Round2(x)` does. */
  lemma Round2Nearest(x: real, k: int)
    ensures Abs(Round2(x) - x) <= Abs(k as real / 100.0 - x)
  {
    var c := k as real / 100.0;
    assert c * 100.0 == k as real;
    if Abs(c - x) < Abs(Round2(x) - x) {
      CentsClose(c, Round2(x));
    }
  }

  /**
   * `Round2` is the only multiple of 0.01 within half a hundredth of `x` that
   * takes a tie away from zero.
   */
  lemma Round2Unique(x: real, y: real)
    requires IsCents(y)
    requires x >= 0.0 ==> -1.0 / 200.0 < y - x <= 1.0 / 200.0
    requires x <= 0.0 ==> -1.0 / 200.0 <= y - x < 1.0 / 200.0
    ensures y == Round2(x)
  {
    CentsClose(y, Round2(x));
  }

  /** No multiple of 0.01 lies closer to `x` than `RoundHalfEven2(x)` does. */
  lemma RoundHalfEven2Nearest(x: real, k: int)
    ensures Abs(RoundHalfEven2(x) - x) <= Abs(k as real / 100.0 - x)
  {
    var c := k as real / 100.0;
    assert c * 100.0 == k as real;
    if Abs(c - x) < Abs(RoundHalfEven2(x) - x) {
      CentsClose(c, RoundHalfEven2(x));
    }
  }

  /**
   * `RoundHalfEven2` is the only multiple of 0.01 within half a hundredth of `x`
   * that is an even number of hundredths whenever it sits exactly half a hundredth away.
   */
  lemma RoundHalfEven2Unique(x: real, y: real)
    requires IsCents(y)
    requires -1.0 / 200.0 <= y - x <= 1.0 / 200.0
    requires Abs(y - x) == 1.0 / 200.0 ==> (y * 100.0).Floor % 2 == 0
    ensures y == RoundHalfEven2(x)
  {
    var r := RoundHalfEven2(x);
    var i, j := (y * 100.0).Floor, (r * 100.0).Floor;
    assert -1 <= i - j <= 1;
  }

  /** Rounding half to even and half away from zero differ only at an exact half. */
  lemma RoundingsAgreeOffTies(x: real)
    requires Abs(Round2(x) - x) != 1.0 / 200.0
    ensures RoundHalfEven2(x) == Round2(x)
  {
    RoundHalfEven2Unique(x, Round2(x));
  }

  /** `toFixed` treats a value and its negation symmetrically. */
  lemma Round2Odd(x: real)
    requires x != 0.0
    ensures Round2(-x) == -Round2(x)
  {
  }

  /** Rounding to two places never reverses the order of two values. */
  lemma Round2Monotone(x: real, y: real)
    requires x <= y
    ensures Round2(x) <= Round2(y)
  {
    if 0.0 <= x {
      FloorMonotone(x * 100.0 + 0.5, y * 100.0 + 0.5);
    } else if y < 0.0 {
      FloorMonotone(-y * 100.0 + 0.5, -x * 100.0 + 0.5);
    }
  }

  lemma FloorMonotone(a: real, b: real)
    requires a <= b
    ensures a.Floor <= b.Floor
  {
  }

  // ----- folds over sequences of scores -----

  /** The sum of a sequence, folded from the front as `reduce((a, b) => a + b, 0)` does. */
  function Sum(xs: seq<real>): real
  {
    if |xs| == 0 then 0.0 else Sum(xs[..|xs| - 1]) + xs[|xs| - 1]
  }

  lemma {:induction false} SumAppend(xs: seq<real>, ys: seq<real>)
    ensures Sum(xs + ys) == Sum(xs) + Sum(ys)
    decreases |ys|
  {
    if |ys| == 0 {
      assert xs + ys == xs;
    } else {
      var n := |ys| - 1;
      assert (xs + ys)[..|xs + ys| - 1] == xs + ys[..n];
      SumAppend(xs, ys[..n]);
    }
  }

  lemma {:induction false} SumBounds(xs: seq<real>, lo: real, hi: real)
    requires forall i :: 0 <= i < |xs| ==> lo <= xs[i] <= hi
    ensures |xs| as real * lo <= Sum(xs) <= |xs| as real * hi
    decreases |xs|
  {
    if |xs| > 0 {
      var k := |xs| - 1;
      SumBounds(xs[..k], lo, hi);
      assert |xs| as real * lo == k as real * lo + lo;
      assert |xs| as real * hi == k as real * hi + hi;
    }
  }

  /** The arithmetic mean of a non-empty sequence. */
  function Mean(xs: seq<real>): real
    requires |xs| > 0
  {
    Sum(xs) / |xs| as real
  }

  /** A mean lies between any lower and upper bound of its elements. */
  lemma MeanBounds(xs: seq<real>, lo: real, hi: real)
    requires |xs| > 0
    requires forall i :: 0 <= i < |xs| ==> lo <= xs[i] <= hi
    ensures lo <= Mean(xs) <= hi
  {
    SumBounds(xs, lo, hi);
    var n := |xs| as real;
    assert Sum(xs) / n >= (n * lo) / n;
    assert Sum(xs) / n <= (n * hi) / n;
  }

  /** `Math.max(...xs)` on a non-empty sequence. */
  function Max(xs: seq<real>): (r: real)
    requires |xs| > 0
    ensures r in xs
    ensures forall i :: 0 <= i < |xs| ==> xs[i] <= r
  {
    if |xs| == 1 then xs[0]
    else
      var m := Max(xs[..|xs| - 1]);
      if xs[|xs| - 1] > m then xs[|xs| - 1] else m
  }

  /** `Math.min(...xs)` on a non-empty sequence. */
  function Min(xs: seq<real>): (r: real)
    requires |xs| > 0
    ensures r in xs
    ensures forall i :: 0 <= i < |xs| ==> r <= xs[i]
  {
    if |xs| == 1 then xs[0]
    else
      var m := Min(xs[..|xs| - 1]);
      if xs[|xs| - 1] < m then xs[|xs| - 1] else m
  }

  /** The extremes bracket the mean. */
  lemma MinMeanMax(xs: seq<real>)
    requires |xs| > 0
    ensures Min(xs) <= Mean(xs) <= Max(xs)
  {
    MeanBounds(xs, Min(xs), Max(xs));
  }

  /** The sum of squared deviations of `xs` from `m`. */
  function SquaredDeviations(xs: seq<real>, m: real): real
  {
    if |xs| == 0 then 0.0
    else SquaredDeviations(xs[..|xs| - 1], m) + (xs[|xs| - 1] - m) * (xs[|xs| - 1] - m)
  }

  /**
   * The population variance (divide by n), 0 for an empty sequence: the quantity
   * whose square root `calculateStandardDeviation` reports.
   */
  function Variance(xs: seq<real>): real
  {
    if |xs| == 0 then 0.0 else SquaredDeviations(xs, Mean(xs)) / |xs| as real
  }

  lemma {:induction false} SquaredDeviationsNonNegative(xs: seq<real>, m: real)
    ensures SquaredDeviations(xs, m) >= 0.0
    decreases |xs|
  {
    if |xs| > 0 {
      var d := xs[|xs| - 1] - m;
      assert d * d >= 0.0;
      SquaredDeviationsNonNegative(xs[..|xs| - 1], m);
    }
  }

  lemma {:induction false} SquaredDeviationsOfConstant(xs: seq<real>, c: real)
    requires forall i :: 0 <= i < |xs| ==> xs[i] == c
    ensures SquaredDeviations(xs, c) == 0.0
    decreases |xs|
  {
    if |xs| > 0 {
      SquaredDeviationsOfConstant(xs[..|xs| - 1], c);
    }
  }

  /** The variance is never negative. */
  lemma VarianceNonNegative(xs: seq<real>)
    ensures Variance(xs) >= 0.0
  {
    if |xs| > 0 {
      SquaredDeviationsNonNegative(xs, Mean(xs));
    }
  }

  /** Identical values have variance 0 (the population form, so also for a single value). */
  lemma VarianceOfConstant(xs: seq<real>, c: real)
    requires forall i :: 0 <= i < |xs| ==> xs[i] == c
    ensures Variance(xs) == 0.0
  {
    if |xs| > 0 {
      MeanBounds(xs, c, c);
      SquaredDeviationsOfConstant(xs, c);
    }
  }
}
