/**
 * The two-half trend rules of the progress analytics. A student's percentages, in
 * the order they were recorded, are split at `floor(n / 2)`; the progress graph
 * compares the two half means by their difference in points, the single-student
 * graph by the relative change of the second mean over the first.
 */
module Trends {
  import opened Numeric

  datatype Trend = Improving | Declining | Stable

  /**
   * A JavaScript number as far as the trend code can produce one: a finite value,
   * or what a division by zero yields (the dividend `0` gives NaN).
   */
  datatype JsNumber = Finite(value: real) | PosInfinity | NegInfinity | NaN

  /** `a / b` on numbers, with `b` a positive zero when it is zero (a sum of non-negative terms). */
  function Divide(a: real, b: real): (r: JsNumber)
    ensures b != 0.0 ==> r == Finite(a / b)
    ensures b == 0.0 ==> (r == PosInfinity <==> a > 0.0) && (r == NegInfinity <==> a < 0.0) && (r == NaN <==> a == 0.0)
  {
    if b != 0.0 then Finite(a / b)
    else if a > 0.0 then PosInfinity
    else if a < 0.0 then NegInfinity
    else NaN
  }

  /** `x * 100`. */
  function Times100(x: JsNumber): JsNumber
  {
    match x
    case Finite(v) => Finite(v * 100.0)
    case _ => x
  }

  /** `parseFloat(x.toFixed(2))`: the infinities and NaN survive the round trip through their names. */
  function RoundJs(x: JsNumber): JsNumber
  {
    match x
    case Finite(v) => Finite(Round2(v))
    case _ => x
  }

  /** `x > c`; every comparison with NaN is false. */
  predicate Above(x: JsNumber, c: real)
  {
    match x
    case Finite(v) => v > c
    case PosInfinity => true
    case _ => false
  }

  /** `x < c`. */
  predicate Below(x: JsNumber, c: real)
  {
    match x
    case Finite(v) => v < c
    case NegInfinity => true
    case _ => false
  }

  /** The threshold cascade both rules share: above 5 improving, else below -5 declining, else stable. */
  function Classify(x: JsNumber): (t: Trend)
    ensures t == Improving <==> Above(x, 5.0)
    ensures t == Declining <==> Below(x, -5.0)
  {
    if Above(x, 5.0) then Improving else if Below(x, -5.0) then Declining else Stable
  }

  // ----- the halves -----

  /** The earliest `floor(n / 2)` points. */
  function FirstHalf(ps: seq<real>): seq<real>
  {
    ps[..|ps| / 2]
  }

  /** The remaining points, from the midpoint on. */
  function SecondHalf(ps: seq<real>): seq<real>
  {
    ps[|ps| / 2..]
  }

  /** The halves split the series in order; the second is never shorter, and both are non-empty from two points on. */
  lemma HalvesSplit(ps: seq<real>)
    ensures FirstHalf(ps) + SecondHalf(ps) == ps
    ensures |FirstHalf(ps)| <= |SecondHalf(ps)| <= |FirstHalf(ps)| + 1
    ensures |ps| >= 2 ==> |FirstHalf(ps)| >= 1
  {
  }

  /** The second half mean minus the first half mean, in percentage points. */
  function HalfDifference(ps: seq<real>): real
    requires |ps| >= 2
  {
    Mean(SecondHalf(ps)) - Mean(FirstHalf(ps))
  }

  /**
   * The relative change from `first` to `second` as both graphs report it: the
   * difference over `first`, times 100, to two places; not finite when `first` is 0.
   */
  function RelativeChange(first: real, second: real): (r: JsNumber)
    ensures first != 0.0 ==> r == Finite(Round2((second - first) / first * 100.0))
    ensures first == 0.0 ==> !r.Finite?
  {
    RoundJs(Times100(Divide(second - first, first)))
  }

  /** `trendPercentage` of both graphs: the relative change between the half means. */
  function TrendPercentage(ps: seq<real>): (r: JsNumber)
    requires |ps| >= 2
    ensures Mean(FirstHalf(ps)) != 0.0 ==>
      r == Finite(Round2((Mean(SecondHalf(ps)) - Mean(FirstHalf(ps))) / Mean(FirstHalf(ps)) * 100.0))
    ensures Mean(FirstHalf(ps)) == 0.0 ==> !r.Finite?
  {
    RelativeChange(Mean(FirstHalf(ps)), Mean(SecondHalf(ps)))
  }

  /** The rule of the progress graph: the half difference against plus and minus 5 points. */
  function AbsoluteTrend(ps: seq<real>): (t: Trend)
    ensures |ps| < 2 ==> t == Stable
    ensures |ps| >= 2 ==> (t == Improving <==> HalfDifference(ps) > 5.0)
    ensures |ps| >= 2 ==> (t == Declining <==> HalfDifference(ps) < -5.0)
  {
    if |ps| < 2 then Stable else Classify(Finite(HalfDifference(ps)))
  }

  /** The rule of the single-student graph: the rounded relative change against plus and minus 5 percent. */
  function RelativeTrend(ps: seq<real>): (t: Trend)
    ensures |ps| < 2 ==> t == Stable
    ensures |ps| >= 2 ==> (t == Improving <==> Above(TrendPercentage(ps), 5.0))
    ensures |ps| >= 2 ==> (t == Declining <==> Below(TrendPercentage(ps), -5.0))
  {
    if |ps| < 2 then Stable else Classify(TrendPercentage(ps))
  }

  // ----- how the rules react to the data -----

  /** Every point moved by the same amount. */
  function Shift(ps: seq<real>, c: real): (r: seq<real>)
    ensures |r| == |ps| && forall i :: 0 <= i < |ps| ==> r[i] == ps[i] + c
  {
    seq(|ps|, i requires 0 <= i < |ps| => ps[i] + c)
  }

  /** Every point multiplied by the same factor. */
  function Scale(ps: seq<real>, k: real): (r: seq<real>)
    ensures |r| == |ps| && forall i :: 0 <= i < |ps| ==> r[i] == ps[i] * k
  {
    seq(|ps|, i requires 0 <= i < |ps| => ps[i] * k)
  }

  lemma {:induction false} SumShift(ps: seq<real>, c: real)
    ensures Sum(Shift(ps, c)) == Sum(ps) + |ps| as real * c
    decreases |ps|
  {
    if |ps| > 0 {
      var n := |ps| - 1;
      assert Shift(ps, c)[..n] == Shift(ps[..n], c);
      SumShift(ps[..n], c);
    }
  }

  lemma {:induction false} SumScale(ps: seq<real>, k: real)
    ensures Sum(Scale(ps, k)) == Sum(ps) * k
    decreases |ps|
  {
    if |ps| > 0 {
      var n := |ps| - 1;
      forall i | 0 <= i < n ensures Scale(ps, k)[..n][i] == Scale(ps[..n], k)[i] {
        assert ps[..n][i] == ps[i];
      }
      assert Scale(ps, k)[..n] == Scale(ps[..n], k);
      SumScale(ps[..n], k);
    }
  }

  lemma MeanShift(ps: seq<real>, c: real)
    requires |ps| > 0
    ensures Mean(Shift(ps, c)) == Mean(ps) + c
  {
    SumShift(ps, c);
    var n := |ps| as real;
    assert (Sum(ps) + n * c) / n == Sum(ps) / n + c;
  }

  lemma MeanScale(ps: seq<real>, k: real)
    requires |ps| > 0
    ensures Mean(Scale(ps, k)) == Mean(ps) * k
  {
    SumScale(ps, k);
    var n := |ps| as real;
    assert (Sum(ps) * k) / n == (Sum(ps) / n) * k;
  }

  /** Adding the same number of points to every score leaves the half difference, and so the progress-graph trend, as it was. */
  lemma AbsoluteTrendShiftInvariant(ps: seq<real>, c: real)
    ensures AbsoluteTrend(Shift(ps, c)) == AbsoluteTrend(ps)
  {
    if |ps| >= 2 {
      var qs := Shift(ps, c);
      assert FirstHalf(qs) == Shift(FirstHalf(ps), c);
      assert SecondHalf(qs) == Shift(SecondHalf(ps), c);
      MeanShift(FirstHalf(ps), c);
      MeanShift(SecondHalf(ps), c);
    }
  }

  /** Scaling every score by the same positive factor leaves the relative change, and so the single-student trend, as it was. */
  lemma TrendPercentageScaleInvariant(ps: seq<real>, k: real)
    requires |ps| >= 2 && k > 0.0
    ensures TrendPercentage(Scale(ps, k)) == TrendPercentage(ps)
  {
    var qs := Scale(ps, k);
    var f := Mean(FirstHalf(ps));
    var s := Mean(SecondHalf(ps));
    assert Mean(FirstHalf(qs)) == f * k by {
      ScaleHalves(ps, k);
      MeanScale(FirstHalf(ps), k);
    }
    assert Mean(SecondHalf(qs)) == s * k by {
      ScaleHalves(ps, k);
      MeanScale(SecondHalf(ps), k);
    }
    assert TrendPercentage(qs) == RelativeChange(f * k, s * k);
    RelativeChangeScale(f, s, k);
  }

  lemma RelativeChangeScale(f: real, s: real, k: real)
    requires k > 0.0
    ensures RelativeChange(f * k, s * k) == RelativeChange(f, s)
  {
    var d := s - f;
    var a := s * k - f * k;
    assert a == d * k;
    DivideScale(d, f, k);
    assert Divide(a, f * k) == Divide(d, f);
  }

  lemma ScaleHalves(ps: seq<real>, k: real)
    ensures FirstHalf(Scale(ps, k)) == Scale(FirstHalf(ps), k)
    ensures SecondHalf(Scale(ps, k)) == Scale(SecondHalf(ps), k)
  {
    var m := |ps| / 2;
    forall i | 0 <= i < |ps| - m ensures SecondHalf(Scale(ps, k))[i] == Scale(SecondHalf(ps), k)[i] {
      assert SecondHalf(ps)[i] == ps[m + i];
    }
    forall i | 0 <= i < m ensures FirstHalf(Scale(ps, k))[i] == Scale(FirstHalf(ps), k)[i] {
      assert FirstHalf(ps)[i] == ps[i];
    }
  }

  lemma DivideScale(d: real, f: real, k: real)
    requires k > 0.0
    ensures Divide(d * k, f * k) == Divide(d, f)
  {
    if f != 0.0 {
      assert (d * k) / (f * k) == d / f;
    } else {
      assert f * k == 0.0;
      assert d * k > 0.0 <==> d > 0.0;
      assert d * k < 0.0 <==> d < 0.0;
    }
  }

  lemma RelativeTrendScaleInvariant(ps: seq<real>, k: real)
    requires k > 0.0
    ensures RelativeTrend(Scale(ps, k)) == RelativeTrend(ps)
  {
    if |ps| >= 2 {
      TrendPercentageScaleInvariant(ps, k);
    }
  }

  /** A flat series is stable under both rules, including a series of zeros, whose relative change is NaN. */
  lemma FlatSeriesStable(ps: seq<real>, c: real)
    requires forall i :: 0 <= i < |ps| ==> ps[i] == c
    ensures AbsoluteTrend(ps) == Stable && RelativeTrend(ps) == Stable
  {
    if |ps| >= 2 {
      MeanBounds(FirstHalf(ps), c, c);
      MeanBounds(SecondHalf(ps), c, c);
    }
  }

  /**
   * For percentages in [0, 100], a rise of more than 5 points is always a rise of
   * more than 5 percent: the first half mean is then below 95, or it is 0 and the
   * change is infinite.
   */
  lemma AbsoluteImprovingIsRelativeImproving(ps: seq<real>)
    requires forall i :: 0 <= i < |ps| ==> 0.0 <= ps[i] <= 100.0
    requires AbsoluteTrend(ps) == Improving
    ensures RelativeTrend(ps) == Improving
  {
    var f := Mean(FirstHalf(ps));
    var s := Mean(SecondHalf(ps));
    MeanBounds(FirstHalf(ps), 0.0, 100.0);
    MeanBounds(SecondHalf(ps), 0.0, 100.0);
    var d := s - f;
    assert d > 5.0;
    if f != 0.0 {
      assert 0.0 < f < 95.0;
      RatioAbove(d, f);
    }
  }

  lemma RatioAbove(d: real, f: real)
    requires d > 5.0 && 0.0 < f < 95.0
    ensures Round2(d / f * 100.0) > 5.0
  {
    assert d / f > 5.0 / f;
    assert 5.0 / f > 5.0 / 95.0;
    assert d / f * 100.0 > 500.0 / 95.0;
  }

  /** A fall of just over 5 points from 100 is declining for the progress graph and stable for the single-student graph. */
  lemma RelativeMissesDecline()
    ensures AbsoluteTrend([100.0, 94.999]) == Declining
    ensures RelativeTrend([100.0, 94.999]) == Stable
  {
    var ps := [100.0, 94.999];
    assert FirstHalf(ps) == [100.0] && SecondHalf(ps) == [94.999];
    assert Mean([100.0]) == 100.0 && Mean([94.999]) == 94.999;
    assert HalfDifference(ps) / 100.0 * 100.0 == -5.001;
    assert Round2(-5.001) == -5.0;
  }

  /** A small absolute rise on low scores is improving for the single-student graph and stable for the progress graph. */
  lemma AbsoluteMissesSmallScores()
    ensures AbsoluteTrend([1.0, 2.0]) == Stable
    ensures RelativeTrend([1.0, 2.0]) == Improving
  {
    var ps := [1.0, 2.0];
    assert FirstHalf(ps) == [1.0] && SecondHalf(ps) == [2.0];
    assert Mean([1.0]) == 1.0 && Mean([2.0]) == 2.0;
    assert Round2(100.0) == 100.0;
  }

  /** Without a guard for a first half of zeros, any later score is an infinite rise: improving. */
  lemma ZeroStartIsInfiniteRise()
    ensures TrendPercentage([0.0, 3.0]) == PosInfinity
    ensures AbsoluteTrend([0.0, 3.0]) == Stable
    ensures RelativeTrend([0.0, 3.0]) == Improving
  {
    var ps := [0.0, 3.0];
    assert FirstHalf(ps) == [0.0] && SecondHalf(ps) == [3.0];
    assert Mean([0.0]) == 0.0 && Mean([3.0]) == 3.0;
  }
}
