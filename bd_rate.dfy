/** The BD-rate computation of main: prepare both curves, find the common
    metric window, integrate each curve's log-rate spline over it, and turn
    the mean log-rate difference into a percentage.

    The spline fit and its integral (ALGLIB), log10 and exp10 are not part of
    this model: they are parameters, and all that is assumed of exp10 is
    exp10(0) = 1, stated where it is needed. */
module BdRate {
  import opened Overlap
  import opened CurvePrep

  /** The two spline kinds main accepts. */
  datatype Interpolation = Akima | Cubic

  /** spline1dintegrate: for a spline kind, the knots (x, y) and a bound t,
      the integral of the fitted spline from its first knot to t. */
  type Antiderivative = (Interpolation, seq<real>, seq<real>, real) -> real

  /** What main prints: the BD-rate, or the reason it stopped. */
  datatype BdOutcome =
    | Rate(percent: real)
    | ZeroSpan                      // every metric value of both curves is the same
    | Rejected(cause: OverlapResult) // NoOverlap or Insufficient

  /** inter_A / inter_B: the integral over [lo, hi], as the difference of two
      antiderivative values. It is the antiderivative's growth from lo to hi,
      so an empty window integrates to 0. */
  function WindowIntegral(F: Antiderivative, kind: Interpolation, x: seq<real>, y: seq<real>,
                          lo: real, hi: real): (r: real)
    ensures F(kind, x, y, lo) + r == F(kind, x, y, hi)
    ensures lo == hi ==> r == 0.0
  {
    F(kind, x, y, hi) - F(kind, x, y, lo)
  }

  /** Integrals over adjacent windows add up, and reversing a window negates
      its integral, whatever the spline. */
  lemma WindowIntegralAdditive(F: Antiderivative, kind: Interpolation, x: seq<real>, y: seq<real>,
                               lo: real, mid: real, hi: real)
    ensures WindowIntegral(F, kind, x, y, lo, mid) + WindowIntegral(F, kind, x, y, mid, hi) ==
            WindowIntegral(F, kind, x, y, lo, hi)
    ensures WindowIntegral(F, kind, x, y, hi, lo) == -WindowIntegral(F, kind, x, y, lo, hi)
  {
  }

  /** bd_diff: the mean of log10(test rate) - log10(anchor rate) over the
      window, i.e. the constant whose integral over the window equals the
      difference of the two integrals. */
  function BdDiff(interA: real, interB: real, lo: real, hi: real): (d: real)
    requires lo < hi
    ensures d * (hi - lo) == interB - interA
  {
    (interB - interA) / (hi - lo)
  }

  /** bd_rate: the percentage by which the test bitrate exceeds the anchor
      bitrate, given that 10^diff is their ratio. */
  function BdRatePercent(diff: real, exp10: real -> real): (p: real)
    ensures exp10(diff) == 1.0 + p / 100.0
  {
    (exp10(diff) - 1.0) * 100.0
  }

  /** Equal integrals, as for a curve compared with itself, give a BD-rate of 0. */
  lemma EqualIntegralsGiveZero(inter: real, lo: real, hi: real, exp10: real -> real)
    requires lo < hi && exp10(0.0) == 1.0
    ensures BdRatePercent(BdDiff(inter, inter, lo, hi), exp10) == 0.0
  {
  }

  /** Exchanging anchor and test negates bd_diff. */
  lemma BdDiffAntisymmetric(interA: real, interB: real, lo: real, hi: real)
    requires lo < hi
    ensures BdDiff(interB, interA, lo, hi) == -BdDiff(interA, interB, lo, hi)
  {
  }

  /** For an increasing exp10 with exp10(0) = 1, the BD-rate is negative
      (the test curve saves bitrate) exactly when the test curve's log-rate
      integral is the smaller, zero exactly when they are equal, and positive
      exactly when it is the larger. */
  lemma BdRateSign(interA: real, interB: real, lo: real, hi: real, exp10: real -> real)
    requires lo < hi && exp10(0.0) == 1.0
    requires forall a, b :: a < b ==> exp10(a) < exp10(b)
    ensures BdRatePercent(BdDiff(interA, interB, lo, hi), exp10) < 0.0 <==> interB < interA
    ensures BdRatePercent(BdDiff(interA, interB, lo, hi), exp10) == 0.0 <==> interB == interA
    ensures BdRatePercent(BdDiff(interA, interB, lo, hi), exp10) > 0.0 <==> interA < interB
  {
    var d := BdDiff(interA, interB, lo, hi);
    QuotientSign(interB - interA, hi - lo);
    assert d < 0.0 ==> exp10(d) < exp10(0.0);
    assert d > 0.0 ==> exp10(0.0) < exp10(d);
  }

  /** A quotient by a positive number has the sign of the dividend. */
  lemma QuotientSign(w: real, t: real)
    requires t > 0.0
    ensures w / t < 0.0 <==> w < 0.0
    ensures w / t == 0.0 <==> w == 0.0
    ensures w / t > 0.0 <==> w > 0.0
  {
  }

  /** When exp10(-d) is the reciprocal of exp10(d), the bitrate ratios of
      "test against anchor" and "anchor against test" multiply to one. */
  lemma SwappedRolesAreReciprocal(interA: real, interB: real, lo: real, hi: real, exp10: real -> real)
    requires lo < hi
    requires forall d :: exp10(-d) * exp10(d) == 1.0
    ensures (1.0 + BdRatePercent(BdDiff(interA, interB, lo, hi), exp10) / 100.0) *
            (1.0 + BdRatePercent(BdDiff(interB, interA, lo, hi), exp10) / 100.0) == 1.0
  {
  }

  /** main, from the two prepared curves on: the overlap check (in the form
      of check_overlap), the two window integrals, bd_diff and bd_rate.
      It gives a BD-rate exactly when the domains overlap by at least
      minOverlap, and reports a zero-width union and a rejection otherwise. */
  function BdRateOf(xA: seq<real>, yA: seq<real>, xB: seq<real>, yB: seq<real>, minOverlap: real,
                    kind: Interpolation, exp10: real -> real, F: Antiderivative): (r: BdOutcome)
    requires |xA| > 0 && |xB| > 0
    ensures r.ZeroSpan? <==> !SpanPositive(xA, xB)
    ensures r.Rejected? ==> (r.cause == NoOverlap <==> Apart(xA, xB))
    ensures r.Rate? <==> SpanPositive(xA, xB) && !Apart(xA, xB) && minOverlap <= DomainRatio(xA, xB)
  {
    if !SpanPositive(xA, xB) then ZeroSpan
    else
      match CheckOverlap(xA, xB, minOverlap)
      case Window(lo, hi, _) =>
        var interA := WindowIntegral(F, kind, xA, yA, lo, hi);
        var interB := WindowIntegral(F, kind, xB, yB, lo, hi);
        Rate(BdRatePercent(BdDiff(interA, interB, lo, hi), exp10))
      case failed => Rejected(failed)
  }

  /** A curve compared with itself has a BD-rate of 0, whatever minOverlap
      up to 1, unless all its metric values are equal. */
  lemma SelfComparisonIsZero(x: seq<real>, y: seq<real>, minOverlap: real,
                             kind: Interpolation, exp10: real -> real, F: Antiderivative)
    requires |x| > 0 && exp10(0.0) == 1.0 && minOverlap <= 1.0
    ensures BdRateOf(x, y, x, y, minOverlap, kind, exp10, F) == (if SpanPositive(x, x) then Rate(0.0) else ZeroSpan)
  {
    if SpanPositive(x, x) {
      CheckOverlapSelf(x, minOverlap);
      EqualIntegralsGiveZero(WindowIntegral(F, kind, x, y, MinOf(x), MaxOf(x)), MinOf(x), MaxOf(x), exp10);
    }
  }

  /** Two preparations of one curve with distinct rates compare to a BD-rate of 0. */
  lemma PreparedSelfComparisonIsZero(rate: seq<real>, metric: seq<real>, log10: real -> real,
                                     p: seq<int>, x: seq<real>, y: seq<real>,
                                     q: seq<int>, x': seq<real>, y': seq<real>,
                                     minOverlap: real, kind: Interpolation, exp10: real -> real,
                                     F: Antiderivative)
    requires DistinctRates(rate) && |rate| > 0
    requires PreparedBy(p, rate, metric, log10, x, y) && PreparedBy(q, rate, metric, log10, x', y')
    requires exp10(0.0) == 1.0 && minOverlap <= 1.0
    ensures |x| > 0 && |x'| > 0
    ensures BdRateOf(x, y, x', y', minOverlap, kind, exp10, F) in {Rate(0.0), ZeroSpan}
  {
    PreparedCurveUnique(rate, metric, log10, p, x, y, q, x', y');
    SelfComparisonIsZero(x, y, minOverlap, kind, exp10, F);
  }

  /** Both outcomes are rates or neither is, and two rates stand for
      reciprocal bitrate ratios. */
  predicate Reciprocal(r: BdOutcome, s: BdOutcome) {
    (r.Rate? <==> s.Rate?) &&
    (r.Rate? && s.Rate? ==> (1.0 + r.percent / 100.0) * (1.0 + s.percent / 100.0) == 1.0)
  }

  /** Exchanging anchor and test gives a result exactly when the original
      order does, and then the two bitrate ratios are reciprocal. */
  lemma SwappedCurvesAreReciprocal(xA: seq<real>, yA: seq<real>, xB: seq<real>, yB: seq<real>,
                                   minOverlap: real, kind: Interpolation, exp10: real -> real,
                                   F: Antiderivative)
    requires |xA| > 0 && |xB| > 0
    requires forall d :: exp10(-d) * exp10(d) == 1.0
    ensures Reciprocal(BdRateOf(xA, yA, xB, yB, minOverlap, kind, exp10, F),
                       BdRateOf(xB, yB, xA, yA, minOverlap, kind, exp10, F))
  {
    if SpanPositive(xA, xB) {
      CheckOverlapSymmetric(xA, xB, minOverlap);
      var c := CheckOverlap(xA, xB, minOverlap);
      if c.Window? {
        SwappedRolesAreReciprocal(WindowIntegral(F, kind, xA, yA, c.lo, c.hi),
                                  WindowIntegral(F, kind, xB, yB, c.lo, c.hi), c.lo, c.hi, exp10);
      }
    } else {
      assert !SpanPositive(xB, xA);
    }
  }

  /** main: prepares the anchor and the test curve and computes their
      BD-rate. The prepared knots are returned as ghost values so that the
      result can be stated in terms of them; for a curve compared with itself
      whose rates are distinct the result is 0. */
  method ComputeBdRate(anchorRate: array<real>, anchorMetric: array<real>,
                       testRate: array<real>, testMetric: array<real>,
                       minOverlap: real, kind: Interpolation,
                       log10: real -> real, exp10: real -> real, F: Antiderivative)
    returns (r: BdOutcome, ghost xA: seq<real>, ghost yA: seq<real>, ghost xB: seq<real>, ghost yB: seq<real>)
    requires 0 < anchorRate.Length == anchorMetric.Length
    requires 0 < testRate.Length == testMetric.Length
    ensures exists p :: PreparedBy(p, anchorRate[..], anchorMetric[..], log10, xA, yA)
    ensures exists p :: PreparedBy(p, testRate[..], testMetric[..], log10, xB, yB)
    ensures |xA| > 0 && |xB| > 0
    ensures r == BdRateOf(xA, yA, xB, yB, minOverlap, kind, exp10, F)
    ensures anchorRate[..] == testRate[..] && anchorMetric[..] == testMetric[..] &&
            DistinctRates(anchorRate[..]) && exp10(0.0) == 1.0 && minOverlap <= 1.0 ==>
              r == Rate(0.0) || r == ZeroSpan
  {
    var xa, ya, orderA := PrepareInput(anchorRate, anchorMetric, log10);
    var xb, yb, orderB := PrepareInput(testRate, testMetric, log10);
    var knotsXA, knotsYA, knotsXB, knotsYB := xa[..], ya[..], xb[..], yb[..];
    xA, yA, xB, yB := knotsXA, knotsYA, knotsXB, knotsYB;
    assert PreparedBy(orderA, anchorRate[..], anchorMetric[..], log10, xA, yA);
    assert PreparedBy(orderB, testRate[..], testMetric[..], log10, xB, yB);

    r := BdRateOf(knotsXA, knotsYA, knotsXB, knotsYB, minOverlap, kind, exp10, F);

    if anchorRate[..] == testRate[..] && anchorMetric[..] == testMetric[..] &&
       DistinctRates(anchorRate[..]) && exp10(0.0) == 1.0 && minOverlap <= 1.0 {
      PreparedSelfComparisonIsZero(anchorRate[..], anchorMetric[..], log10, orderA, xA, yA, orderB, xB, yB,
                                   minOverlap, kind, exp10, F);
    }
  }
}
