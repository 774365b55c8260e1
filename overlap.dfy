/** Overlap validation: the two curves' quality-metric domains are compared,
    their common part (the window both integrals run over) is computed, and
    its width as a fraction of the width of their union is checked against
    the minimum overlap the caller asks for.

    bd_rate.cpp holds two versions: check_overlap, which takes each curve's
    smallest and largest metric, and the inline check of main, which takes
    the first and last knot and has no separate zero-overlap case. */
module Overlap {

  /** The outcome of an overlap check. The source prints a message and exits
      on failure; here the failure is a value. */
  datatype OverlapResult =
    | Window(lo: real, hi: real, ratio: real)  // the check passed
    | NoOverlap                                // the domains do not intersect in more than a point
    | Insufficient(ratio: real)                // they do, but by less than the minimum fraction

  function Min2(a: real, b: real): real { if b < a then b else a }
  function Max2(a: real, b: real): real { if a < b then b else a }

  /** The value std::min_element points at. */
  function MinOf(s: seq<real>): (m: real)
    requires |s| > 0
    ensures m in s
    ensures forall i :: 0 <= i < |s| ==> m <= s[i]
  {
    if |s| == 1 then s[0] else Min2(s[0], MinOf(s[1..]))
  }

  /** The value std::max_element points at. */
  function MaxOf(s: seq<real>): (m: real)
    requires |s| > 0
    ensures m in s
    ensures forall i :: 0 <= i < |s| ==> s[i] <= m
  {
    if |s| == 1 then s[0] else Max2(s[0], MaxOf(s[1..]))
  }

  function Last(s: seq<real>): real
    requires |s| > 0
  {
    s[|s| - 1]
  }

  predicate Ascending(s: seq<real>) {
    forall i, j :: 0 <= i < j < |s| ==> s[i] <= s[j]
  }

  /** v lies in the metric domain [min, max] of the curve with knots s. */
  predicate Covers(s: seq<real>, v: real)
    requires |s| > 0
  {
    MinOf(s) <= v <= MaxOf(s)
  }

  /** The two domains share at most one point: the lower of the two maxima
      does not exceed the higher of the two minima. */
  predicate Apart(xA: seq<real>, xB: seq<real>)
    requires |xA| > 0 && |xB| > 0
  {
    Min2(MaxOf(xA), MaxOf(xB)) <= Max2(MinOf(xA), MinOf(xB))
  }

  /** Apart says exactly that no two distinct values lie in both domains. */
  lemma ApartIffCommonPartIsAPoint(xA: seq<real>, xB: seq<real>)
    requires |xA| > 0 && |xB| > 0
    ensures Apart(xA, xB) <==>
              forall u, v :: Covers(xA, u) && Covers(xB, u) && Covers(xA, v) && Covers(xB, v) ==> u == v
  {
    if !Apart(xA, xB) {
      var u, v := Max2(MinOf(xA), MinOf(xB)), Min2(MaxOf(xA), MaxOf(xB));
      assert Covers(xA, u) && Covers(xB, u) && Covers(xA, v) && Covers(xB, v) && u != v;
    }
  }

  /** The union of the two domains has positive width; both checks divide by it. */
  predicate SpanPositive(xA: seq<real>, xB: seq<real>)
    requires |xA| > 0 && |xB| > 0
  {
    Min2(MinOf(xA), MinOf(xB)) < Max2(MaxOf(xA), MaxOf(xB))
  }

  /** Width of the intersection of [loA, hiA] and [loB, hiB] (0 when empty)
      over the width of their hull. main's endpoints need not be in order, so
      the hull may have negative width; only a zero width is excluded. */
  function Ratio(loA: real, hiA: real, loB: real, hiB: real): (r: real)
    requires Min2(loA, loB) != Max2(hiA, hiB)
    ensures 0.0 <= r
  {
    Max2(Min2(hiA, hiB) - Max2(loA, loB), 0.0) / (Max2(hiA, hiB) - Min2(loA, loB))
  }

  /** The intersection is never wider than the hull. */
  lemma RatioAtMostOne(loA: real, hiA: real, loB: real, hiB: real)
    requires loA <= hiA && loB <= hiB && Min2(loA, loB) < Max2(hiA, hiB)
    ensures Ratio(loA, hiA, loB, hiB) <= 1.0
  {
    var w := Max2(Min2(hiA, hiB) - Max2(loA, loB), 0.0);
    var t := Max2(hiA, hiB) - Min2(loA, loB);
    assert Ratio(loA, hiA, loB, hiB) == w / t;
    assert w <= t;
    QuotientAtMostOne(w, t);
  }

  /** The ratio is zero exactly when the intervals are disjoint or touch at a point. */
  lemma RatioZeroIffApart(loA: real, hiA: real, loB: real, hiB: real)
    requires Min2(loA, loB) != Max2(hiA, hiB)
    ensures Ratio(loA, hiA, loB, hiB) == 0.0 <==> Min2(hiA, hiB) <= Max2(loA, loB)
  {
    var w := Max2(Min2(hiA, hiB) - Max2(loA, loB), 0.0);
    var t := Max2(hiA, hiB) - Min2(loA, loB);
    QuotientTimesDivisor(w, t);
    assert w == 0.0 <==> Min2(hiA, hiB) <= Max2(loA, loB);
  }

  /** A quotient by a positive number no smaller than the dividend is at most 1. */
  lemma QuotientAtMostOne(w: real, t: real)
    requires t > 0.0 && w <= t
    ensures w / t <= 1.0
  {
  }

  /** Dividing by a non-zero number and multiplying back gives the dividend. */
  lemma QuotientTimesDivisor(w: real, t: real)
    requires t != 0.0
    ensures (w / t) * t == w
    ensures w / t == 0.0 <==> w == 0.0
  {
  }

  /** The ratio is one exactly when the two intervals coincide. */
  lemma RatioOneIffSame(loA: real, hiA: real, loB: real, hiB: real)
    requires loA <= hiA && loB <= hiB && Min2(loA, loB) < Max2(hiA, hiB)
    ensures Ratio(loA, hiA, loB, hiB) == 1.0 <==> loA == loB && hiA == hiB
  {
    var w := Max2(Min2(hiA, hiB) - Max2(loA, loB), 0.0);
    var t := Max2(hiA, hiB) - Min2(loA, loB);
    QuotientIsOne(w, t);
    if Ratio(loA, hiA, loB, hiB) == 1.0 {
      assert Min2(hiA, hiB) - Max2(loA, loB) == Max2(hiA, hiB) - Min2(loA, loB);
    }
  }

  /** A quotient by a positive number is 1 exactly when both are equal. */
  lemma QuotientIsOne(w: real, t: real)
    requires t > 0.0
    ensures w / t == 1.0 <==> w == t
  {
  }

  /** The overlap ratio of two curves, their domains taken from min and max. */
  function DomainRatio(xA: seq<real>, xB: seq<real>): real
    requires |xA| > 0 && |xB| > 0 && SpanPositive(xA, xB)
  {
    Ratio(MinOf(xA), MaxOf(xA), MinOf(xB), MaxOf(xB))
  }

  /** check_overlap: fails with NoOverlap exactly when the domains are apart,
      with Insufficient exactly when they overlap by less than minOverlap, and
      otherwise passes with the common domain, which then has positive width. */
  function CheckOverlap(xA: seq<real>, xB: seq<real>, minOverlap: real): (r: OverlapResult)
    requires |xA| > 0 && |xB| > 0 && SpanPositive(xA, xB)
    ensures r.NoOverlap? <==> Apart(xA, xB)
    ensures r.Insufficient? <==> !Apart(xA, xB) && DomainRatio(xA, xB) < minOverlap
    ensures r.Insufficient? ==> 0.0 < r.ratio < minOverlap && r.ratio == DomainRatio(xA, xB)
    ensures r.Window? ==> minOverlap <= r.ratio == DomainRatio(xA, xB) && 0.0 < r.ratio <= 1.0
    ensures r.Window? ==> r.lo < r.hi
    ensures r.Window? ==> forall v :: Covers(xA, v) && Covers(xB, v) <==> r.lo <= v <= r.hi
  {
    var loA, hiA, loB, hiB := MinOf(xA), MaxOf(xA), MinOf(xB), MaxOf(xB);
    assert loA <= xA[0] <= hiA && loB <= xB[0] <= hiB;
    RatioZeroIffApart(loA, hiA, loB, hiB);
    RatioAtMostOne(loA, hiA, loB, hiB);
    var overlap := Ratio(loA, hiA, loB, hiB);
    if overlap == 0.0 then NoOverlap
    else if overlap < minOverlap then Insufficient(overlap)
    else Window(Max2(loA, loB), Min2(hiA, hiB), overlap)
  }

  /** The divisor of main's ratio, built from the first and last knot of
      each curve, is not zero. It is negative when the knots run downwards. */
  predicate EndpointSpanNonZero(xA: seq<real>, xB: seq<real>)
    requires |xA| > 0 && |xB| > 0
  {
    Min2(xA[0], xB[0]) != Max2(Last(xA), Last(xB))
  }

  function EndpointRatio(xA: seq<real>, xB: seq<real>): real
    requires |xA| > 0 && |xB| > 0 && EndpointSpanNonZero(xA, xB)
  {
    Ratio(xA[0], Last(xA), xB[0], Last(xB))
  }

  /** The inline check of main: it never reports NoOverlap, rejects exactly
      when the ratio is below minOverlap, and a pass with a positive ratio
      leaves a window of positive width to divide by. */
  function MainOverlapCheck(xA: seq<real>, xB: seq<real>, minOverlap: real): (r: OverlapResult)
    requires |xA| > 0 && |xB| > 0 && EndpointSpanNonZero(xA, xB)
    ensures !r.NoOverlap?
    ensures r.Insufficient? <==> EndpointRatio(xA, xB) < minOverlap
    ensures r.Insufficient? ==> r.ratio == EndpointRatio(xA, xB)
    ensures r.Window? ==> minOverlap <= r.ratio == EndpointRatio(xA, xB)
    ensures r.Window? && 0.0 < r.ratio ==> r.lo < r.hi
  {
    var loA, hiA, loB, hiB := xA[0], Last(xA), xB[0], Last(xB);
    RatioZeroIffApart(loA, hiA, loB, hiB);
    var overlap := Ratio(loA, hiA, loB, hiB);
    if overlap < minOverlap then Insufficient(overlap)
    else Window(Max2(loA, loB), Min2(hiA, hiB), overlap)
  }

  /** On ascending knots (the order main relies on) the first and last knots
      are the min and max, so the two checks see the same domains. They then
      agree except where check_overlap reports NoOverlap: main rejects that
      case only when minOverlap is positive, and otherwise passes it with a
      window whose upper end does not exceed its lower end. */
  lemma OverlapChecksAgree(xA: seq<real>, xB: seq<real>, minOverlap: real)
    requires |xA| > 0 && |xB| > 0 && Ascending(xA) && Ascending(xB)
    requires SpanPositive(xA, xB)
    ensures EndpointSpanNonZero(xA, xB)
    ensures !CheckOverlap(xA, xB, minOverlap).NoOverlap? ==>
              MainOverlapCheck(xA, xB, minOverlap) == CheckOverlap(xA, xB, minOverlap)
    ensures CheckOverlap(xA, xB, minOverlap).NoOverlap? ==>
              (MainOverlapCheck(xA, xB, minOverlap).Insufficient? <==> 0.0 < minOverlap) &&
              (MainOverlapCheck(xA, xB, minOverlap).Window? ==>
                 MainOverlapCheck(xA, xB, minOverlap).hi <= MainOverlapCheck(xA, xB, minOverlap).lo)
  {
    AscendingEnds(xA);
    AscendingEnds(xB);
  }

  /** The first and last knots of an ascending curve are its min and max. */
  lemma AscendingEnds(s: seq<real>)
    requires |s| > 0 && Ascending(s)
    ensures MinOf(s) == s[0] && MaxOf(s) == Last(s)
  {
    assert s[0] in s && Last(s) in s;
  }

  /** With knots out of ascending order the two checks can disagree: main
      measures the overlap of [1, 3] and [0, 1], which is a point, while the
      real domains [0, 3] and [0, 1] overlap by a third of their union. */
  lemma UnsortedKnotsChecksDiffer()
    ensures CheckOverlap([1.0, 0.0, 3.0], [0.0, 1.0], 0.25) == Window(0.0, 1.0, 1.0 / 3.0)
    ensures MainOverlapCheck([1.0, 0.0, 3.0], [0.0, 1.0], 0.25) == Insufficient(0.0)
  {
  }

  /** The disagreement goes the other way too: main sees [0, 1] twice and
      passes with ratio 1, while the real domains [0, 3] and [0, 1] overlap
      by only a third. */
  lemma UnsortedKnotsPassMainOnly()
    ensures MainOverlapCheck([0.0, 3.0, 1.0], [0.0, 1.0], 0.5) == Window(0.0, 1.0, 1.0)
    ensures CheckOverlap([0.0, 3.0, 1.0], [0.0, 1.0], 0.5) == Insufficient(1.0 / 3.0)
  {
    assert MinOf([0.0, 3.0, 1.0]) == 0.0 && MaxOf([0.0, 3.0, 1.0]) == 3.0;
    assert MinOf([0.0, 1.0]) == 0.0 && MaxOf([0.0, 1.0]) == 1.0;
  }

  /** main's check, as written, passes two disjoint curves when minOverlap
      is 0: the window it hands on is empty (hi < lo). check_overlap rejects
      them. */
  lemma MainCheckPassesDisjointCurves()
    ensures MainOverlapCheck([0.0, 1.0], [2.0, 3.0], 0.0) == Window(2.0, 1.0, 0.0)
    ensures CheckOverlap([0.0, 1.0], [2.0, 3.0], 0.0) == NoOverlap
  {
  }

  /** Likewise for two curves that touch at one metric value: main passes
      them with a window of zero width, the divisor of the final formula. */
  lemma MainCheckPassesTouchingCurves()
    ensures MainOverlapCheck([0.0, 1.0], [1.0, 2.0], 0.0) == Window(1.0, 1.0, 0.0)
    ensures CheckOverlap([0.0, 1.0], [1.0, 2.0], 0.0) == NoOverlap
  {
  }

  /** Knots that run downwards give main a negative divisor. The ratio is
      then 0 (the source's -0.0), so main rejects for a positive minOverlap
      and otherwise passes with a window whose ends are reversed. */
  lemma MainCheckOnDescendingKnots()
    ensures MainOverlapCheck([1.0, 0.0], [1.0, 0.0], 0.5) == Insufficient(0.0)
    ensures MainOverlapCheck([1.0, 0.0], [1.0, 0.0], 0.0) == Window(1.0, 0.0, 0.0)
  {
  }

  /** The check does not depend on which curve is the anchor. */
  lemma CheckOverlapSymmetric(xA: seq<real>, xB: seq<real>, minOverlap: real)
    requires |xA| > 0 && |xB| > 0 && SpanPositive(xA, xB)
    ensures SpanPositive(xB, xA)
    ensures CheckOverlap(xB, xA, minOverlap) == CheckOverlap(xA, xB, minOverlap)
  {
    RatioSymmetric(MinOf(xA), MaxOf(xA), MinOf(xB), MaxOf(xB));
  }

  /** Exchanging the two intervals changes neither their hull nor their
      intersection. */
  lemma RatioSymmetric(loA: real, hiA: real, loB: real, hiB: real)
    requires Min2(loA, loB) != Max2(hiA, hiB)
    ensures Min2(loB, loA) == Min2(loA, loB) && Max2(hiB, hiA) == Max2(hiA, hiB)
    ensures Max2(loB, loA) == Max2(loA, loB) && Min2(hiB, hiA) == Min2(hiA, hiB)
    ensures Ratio(loB, hiB, loA, hiA) == Ratio(loA, hiA, loB, hiB)
  {
  }

  /** A curve always overlaps itself completely, so it passes against itself
      for every minOverlap up to 1. */
  lemma CheckOverlapSelf(x: seq<real>, minOverlap: real)
    requires |x| > 0 && SpanPositive(x, x) && minOverlap <= 1.0
    ensures CheckOverlap(x, x, minOverlap) == Window(MinOf(x), MaxOf(x), 1.0)
  {
    RatioOneIffSame(MinOf(x), MaxOf(x), MinOf(x), MaxOf(x));
  }

  /** With minOverlap = 1 a check passes only when the two domains coincide. */
  lemma FullOverlapRequiresSameDomain(xA: seq<real>, xB: seq<real>)
    requires |xA| > 0 && |xB| > 0 && SpanPositive(xA, xB)
    ensures CheckOverlap(xA, xB, 1.0).Window? <==>
              MinOf(xA) == MinOf(xB) && MaxOf(xA) == MaxOf(xB)
  {
    RatioOneIffSame(MinOf(xA), MaxOf(xA), MinOf(xB), MaxOf(xB));
  }
}
