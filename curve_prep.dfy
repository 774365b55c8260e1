/** Curve preparation: the samples of one rate–quality curve are reordered by
    ascending bitrate and turned into the knot arrays of the interpolant,
    x = quality metric and y = log10(bitrate), one knot per original sample.

    log10 is a parameter: only its being a function of the rate matters here. */
module CurvePrep {

  /** Every entry of q is an index below n. */
  predicate IndicesBelow(q: seq<int>, n: int) {
    forall k :: 0 <= k < |q| ==> 0 <= q[k] < n
  }

  /** p lists every index 0..n-1 exactly once. */
  ghost predicate IsIndexPermutation(p: seq<int>, n: nat) {
    |p| == n && IndicesBelow(p, n) &&
    multiset(p) == multiset(seq(n, i => i))
  }

  /** The entries of s in the order the indices q list them. */
  function Reordered<T>(s: seq<T>, q: seq<int>): seq<T>
    requires IndicesBelow(q, |s|)
  {
    seq(|q|, k requires 0 <= k < |q| => s[q[k]])
  }

  /** Every entry of p indexes rate, and the rates read through p never decrease.
      Ties may come in any order: nothing here asks for stability. */
  predicate SortedByRate(p: seq<int>, rate: seq<real>) {
    IndicesBelow(p, |rate|) &&
    forall k, l :: 0 <= k < l < |p| ==> rate[p[k]] <= rate[p[l]]
  }

  /** No two samples of the curve share a bitrate. */
  predicate DistinctRates(rate: seq<real>) {
    forall i, j :: 0 <= i < |rate| && 0 <= j < |rate| && i != j ==> rate[i] != rate[j]
  }

  /** (x, y) are the knots of the curve (rate, metric) taken in the order p. */
  ghost predicate PreparedBy(p: seq<int>, rate: seq<real>, metric: seq<real>, log10: real -> real,
                             x: seq<real>, y: seq<real>)
  {
    |rate| == |metric| &&
    IsIndexPermutation(p, |rate|) && SortedByRate(p, rate) &&
    |x| == |rate| && |y| == |rate| &&
    forall i :: 0 <= i < |x| ==> x[i] == metric[p[i]] && y[i] == log10(rate[p[i]])
  }

  /** The std::sort call of prepare_input: reorders the index array in place so
      that the rates it points at are ascending. An insertion sort by adjacent
      swaps stands in for the library's algorithm; only the outcome is specified. */
  method SortIndicesByRate(a: array<int>, rate: seq<real>)
    requires forall k :: 0 <= k < a.Length ==> 0 <= a[k] < |rate|
    modifies a
    ensures SortedByRate(a[..], rate)
    ensures multiset(a[..]) == old(multiset(a[..]))
  {
    if a.Length == 0 {
      return;
    }
    var i := 1;
    while i < a.Length
      invariant 1 <= i <= a.Length
      invariant forall k :: 0 <= k < a.Length ==> 0 <= a[k] < |rate|
      invariant forall k, l :: 0 <= k < l < i ==> rate[a[k]] <= rate[a[l]]
      invariant multiset(a[..]) == old(multiset(a[..]))
    {
      InsertIntoSortedPrefix(a, i, rate);
      i := i + 1;
    }
  }

  /** One step of the insertion sort: a[i] moves down past the entries of the
      sorted prefix a[..i] with a greater rate, so that a[..i + 1] is sorted. */
  method InsertIntoSortedPrefix(a: array<int>, i: int, rate: seq<real>)
    requires 0 < i < a.Length
    requires forall k :: 0 <= k < a.Length ==> 0 <= a[k] < |rate|
    requires forall k, l :: 0 <= k < l < i ==> rate[a[k]] <= rate[a[l]]
    modifies a
    ensures forall k :: 0 <= k < a.Length ==> 0 <= a[k] < |rate|
    ensures forall k, l :: 0 <= k < l <= i ==> rate[a[k]] <= rate[a[l]]
    ensures multiset(a[..]) == old(multiset(a[..]))
    ensures a[i + 1..] == old(a[i + 1..])
  {
    var j := i;
    while 0 < j && rate[a[j]] < rate[a[j - 1]]
      invariant 0 <= j <= i
      invariant forall k :: 0 <= k < a.Length ==> 0 <= a[k] < |rate|
      invariant forall k, l :: 0 <= k < l <= i && k != j && l != j ==> rate[a[k]] <= rate[a[l]]
      invariant forall l :: j < l <= i ==> rate[a[j]] < rate[a[l]]
      invariant multiset(a[..]) == old(multiset(a[..]))
      invariant a[i + 1..] == old(a[i + 1..])
    {
      SwapAdjacent(a, j);
      j := j - 1;
    }
  }

  /** Exchanges a[j - 1] and a[j], leaving the rest of a as it was. */
  method SwapAdjacent(a: array<int>, j: int)
    requires 0 < j < a.Length
    modifies a
    ensures a[j - 1] == old(a[j]) && a[j] == old(a[j - 1])
    ensures forall k :: 0 <= k < a.Length && k != j - 1 && k != j ==> a[k] == old(a[k])
    ensures multiset(a[..]) == old(multiset(a[..]))
  {
    a[j - 1], a[j] := a[j], a[j - 1];
  }

  /** The first loop of prepare_input: a new index array holding 0, 1, ..., n-1. */
  method IdentityIndices(n: nat) returns (a: array<int>)
    ensures fresh(a)
    ensures a[..] == seq(n, i => i)
  {
    a := new int[n];
    var i := 0;
    while i < n
      invariant 0 <= i <= n
      invariant forall k :: 0 <= k < i ==> a[k] == k
    {
      a[i] := i;
      i := i + 1;
    }
  }

  /** The last loop of prepare_input: knot i is the sample that indices[i]
      names, x from its metric and y from the log of its rate. */
  method GatherKnots(indices: array<int>, rate: array<real>, metric: array<real>, log10: real -> real)
    returns (x: array<real>, y: array<real>)
    requires rate.Length == metric.Length && IndicesBelow(indices[..], rate.Length)
    ensures fresh(x) && fresh(y)
    ensures x.Length == indices.Length && y.Length == indices.Length
    ensures forall i :: 0 <= i < x.Length ==>
              x[i] == metric[indices[i]] && y[i] == log10(rate[indices[i]])
  {
    var n := indices.Length;
    x := new real[n];
    y := new real[n];
    var i := 0;
    while i < n
      invariant 0 <= i <= n
      invariant forall k :: 0 <= k < i ==>
                  x[k] == metric[indices[k]] && y[k] == log10(rate[indices[k]])
    {
      x[i] := metric[indices[i]];
      y[i] := log10(rate[indices[i]]);
      i := i + 1;
    }
  }

  /** prepare_input: the rates and metrics are only read; the knot arrays are
      new, of the curve's length, and hold each original sample once, in
      ascending order of rate. The order used is returned as a ghost value. */
  method PrepareInput(rate: array<real>, metric: array<real>, log10: real -> real)
    returns (x: array<real>, y: array<real>, ghost order: seq<int>)
    requires rate.Length == metric.Length
    ensures fresh(x) && fresh(y)
    ensures x.Length == rate.Length && y.Length == rate.Length
    ensures IsIndexPermutation(order, rate.Length)
    ensures SortedByRate(order, rate[..])
    ensures forall i :: 0 <= i < x.Length ==>
              x[i] == metric[order[i]] && y[i] == log10(rate[order[i]])
  {
    var indices := IdentityIndices(rate.Length);
    SortIndicesByRate(indices, rate[..]);
    order := indices[..];
    x, y := GatherKnots(indices, rate, metric, log10);
  }

  /** With distinct rates there is exactly one ascending order of the samples:
      two rate-sorted arrangements of the same indices coincide. */
  lemma {:induction false} SortedArrangementUnique(rate: seq<real>, p: seq<int>, q: seq<int>)
    requires DistinctRates(rate)
    requires SortedByRate(p, rate) && SortedByRate(q, rate)
    requires multiset(p) == multiset(q)
    ensures p == q
  {
    if |p| == 0 || |q| == 0 {
      assert |p| == |multiset(p)| == |multiset(q)| == |q|;
    } else {
      SameLeastIndex(rate, p, q);
      DropHead(p, rate);
      DropHead(q, rate);
      SortedArrangementUnique(rate, p[1..], q[1..]);
      SameHeadSameTail(p, q);
    }
  }

  lemma SameHeadSameTail(p: seq<int>, q: seq<int>)
    requires |p| > 0 && |q| > 0 && p[0] == q[0] && p[1..] == q[1..]
    ensures p == q
  {
    assert p == [p[0]] + p[1..] && q == [q[0]] + q[1..];
  }

  /** Two rate-sorted arrangements of the same indices start with the same
      index when the rates are distinct: both start at the least rate. */
  lemma SameLeastIndex(rate: seq<real>, p: seq<int>, q: seq<int>)
    requires DistinctRates(rate)
    requires SortedByRate(p, rate) && SortedByRate(q, rate)
    requires multiset(p) == multiset(q) && |p| > 0 && |q| > 0
    ensures p[0] == q[0]
  {
    assert p[0] in multiset(q) && q[0] in multiset(p);
    var j :| 0 <= j < |q| && q[j] == p[0];
    var k :| 0 <= k < |p| && p[k] == q[0];
    assert rate[q[0]] <= rate[p[0]] <= rate[q[0]];
  }

  /** Dropping the first index of a rate-sorted arrangement leaves a rate-sorted
      arrangement of the remaining indices. */
  lemma DropHead(p: seq<int>, rate: seq<real>)
    requires |p| > 0 && SortedByRate(p, rate)
    ensures SortedByRate(p[1..], rate)
    ensures multiset(p[1..]) == multiset(p) - multiset{p[0]}
  {
    assert p == [p[0]] + p[1..];
  }

  /** Preparing a curve whose rates are distinct gives one result only: the
      knots do not depend on how the sort breaks ties, because there are none. */
  lemma PreparedCurveUnique(rate: seq<real>, metric: seq<real>, log10: real -> real,
                            p: seq<int>, x: seq<real>, y: seq<real>,
                            q: seq<int>, x': seq<real>, y': seq<real>)
    requires DistinctRates(rate)
    requires PreparedBy(p, rate, metric, log10, x, y)
    requires PreparedBy(q, rate, metric, log10, x', y')
    ensures p == q && x == x' && y == y'
  {
    SortedArrangementUnique(rate, p, q);
  }

  /** The order in which the samples are given does not matter: listing the
      samples of a curve with distinct rates in any other order pi and
      preparing that gives the same knots. */
  lemma PreparedCurveIgnoresInputOrder(rate: seq<real>, metric: seq<real>, log10: real -> real,
                                       pi: seq<int>, p: seq<int>, x: seq<real>, y: seq<real>,
                                       q: seq<int>, x': seq<real>, y': seq<real>)
    requires IsIndexPermutation(pi, |rate|) && DistinctRates(rate)
    requires PreparedBy(p, rate, metric, log10, x, y)
    requires PreparedBy(q, Reordered(rate, pi), Reordered(metric, pi), log10, x', y')
    ensures x == x' && y == y'
  {
    var n := |rate|;
    var r := Reordered(pi, q);
    assert SortedByRate(r, rate) by {
      forall k, l | 0 <= k < l < |r|
        ensures rate[r[k]] <= rate[r[l]]
      {
        assert Reordered(rate, pi)[q[k]] <= Reordered(rate, pi)[q[l]];
      }
    }
    ReorderingKeepsMultiset(pi, q, seq(n, i => i));
    assert Reordered(pi, seq(n, i => i)) == pi;
    SortedArrangementUnique(rate, p, r);
  }

  /** Reading s through two arrangements of the same indices gives the same
      entries, possibly in another order. */
  lemma {:induction false} ReorderingKeepsMultiset<T>(s: seq<T>, q: seq<int>, q': seq<int>)
    requires IndicesBelow(q, |s|)
    requires IndicesBelow(q', |s|)
    requires multiset(q) == multiset(q')
    ensures multiset(Reordered(s, q)) == multiset(Reordered(s, q'))
    decreases |q|
  {
    if |q| == 0 {
      assert |q'| == |multiset(q')| == 0;
    } else {
      assert q[0] in multiset(q');
      var j :| 0 <= j < |q'| && q'[j] == q[0];
      var rest, rest' := q[..0] + q[1..], q'[..j] + q'[j + 1..];
      ReorderedWithout(s, q, 0);
      ReorderedWithout(s, q', j);
      ReorderingKeepsMultiset(s, rest, rest');
    }
  }

  /** Taking the index at position j out of q takes one s[q[j]] out of the
      entries read through it. */
  lemma ReorderedWithout<T>(s: seq<T>, q: seq<int>, j: int)
    requires IndicesBelow(q, |s|)
    requires 0 <= j < |q|
    ensures IndicesBelow(q[..j] + q[j + 1..], |s|)
    ensures multiset(q[..j] + q[j + 1..]) == multiset(q) - multiset{q[j]}
    ensures multiset(Reordered(s, q)) == multiset(Reordered(s, q[..j] + q[j + 1..])) + multiset{s[q[j]]}
  {
    var a, b := q[..j], q[j + 1..];
    assert q == a + [q[j]] + b;
    assert Reordered(s, q) == Reordered(s, a) + [s[q[j]]] + Reordered(s, b);
    assert Reordered(s, a + b) == Reordered(s, a) + Reordered(s, b);
  }

  /** With two equal rates both orders of the tied samples are rate-sorted
      permutations, and they give different metric knots: prepared curves are
      unique only up to the order of ties. */
  lemma TiedRatesAllowTwoPreparations(m0: real, m1: real, log10: real -> real)
    requires m0 != m1
    ensures PreparedBy([0, 1], [1.0, 1.0], [m0, m1], log10, [m0, m1], [log10(1.0), log10(1.0)])
    ensures PreparedBy([1, 0], [1.0, 1.0], [m0, m1], log10, [m1, m0], [log10(1.0), log10(1.0)])
  {
    TiedPreparation([0, 1], m0, m1, log10);
    TiedPreparation([1, 0], m0, m1, log10);
  }

  /** Either order of two samples with rate 1 is a valid preparation. */
  lemma TiedPreparation(p: seq<int>, m0: real, m1: real, log10: real -> real)
    requires p == [0, 1] || p == [1, 0]
    ensures PreparedBy(p, [1.0, 1.0], [m0, m1], log10, [[m0, m1][p[0]], [m0, m1][p[1]]],
                       [log10(1.0), log10(1.0)])
  {
    assert seq(2, i => i) == [0, 1];
    assert multiset([1, 0]) == multiset([0, 1]);
    assert IsIndexPermutation(p, 2);
  }
}
