# BD-rate calculator: a verified model of its core

The `bd_rate` tool computes the Bjøntegaard-Delta rate of a test rate–quality
curve against an anchor curve. It sorts each curve's samples by bitrate and
builds spline knots `x = metric` and `y = log10(rate)`. It then checks that
the two curves' metric domains overlap enough. It integrates both splines
over the common window and reports `(10^(mean log-rate difference) - 1) * 100`.

This project models the parts of `bd_rate.cpp` that are not option parsing,
ALGLIB or transcendental floating point:

- `CurvePrep` (curve_prep.dfy) models `prepare_input`. The index array is
  filled and then sorted in place by rate. The knot arrays are written in a
  loop. The method is proved to give a permutation of the samples, sorted by
  rate, with each (metric, log-rate) pair kept together. A lemma proves that
  the result is unique when the rates are distinct, and another that, when
  the rates are distinct, it does not depend on the order in which the
  samples are given. A third
  shows that with tied rates it is not unique, because `std::sort` is not
  stable.
- `Overlap` (overlap.dfy) models both overlap checks as functions over exact
  reals that return a result value instead of exiting. One is
  `check_overlap`, which uses min and max. The other is the inline check of
  `main`, which uses the first and last knot and has no zero-overlap case.
  Lemmas cover the ratio's range, exactly when it is 0 and exactly when it is 1.
  One lemma proves the two checks agree on ascending knots, except in the
  zero-overlap case. Others show concrete inputs where they differ.
- `BdRate` (bd_rate.dfy) models the window integrals, `bd_diff` and
  `bd_rate`. `ComputeBdRate` models `main` with `check_overlap` in place of
  its inline check (see Findings). `log10`, `exp10` and the spline antiderivative
  are function parameters. `exp10(0) = 1` is required only where it is used.
  Lemmas prove that one prepared curve compared with itself gives 0, and
  that two preparations of the same samples do too when the rates are
  distinct (ZeroSpan instead when all metric values are equal). They also
  prove the sign of the result, and that swapping anchor and test gives
  reciprocal bitrate ratios.

## Model

| member | source | states |
|---|---|---|
| `CurvePrep.IdentityIndices` | bd_rate.cpp:74-77 | the new index array holds `0, 1, ..., n-1` in order |
| `CurvePrep.SortIndicesByRate` | bd_rate.cpp:78 | the index array is reordered in place so the rates it points at never decrease, as a permutation of its old contents; tie order is unspecified |
| `CurvePrep.InsertIntoSortedPrefix` | bd_rate.cpp:78 | one insertion step: if the first `i` indices are sorted by rate, afterwards the first `i + 1` are, the entries after position `i` are untouched, and the array holds the same indices |
| `CurvePrep.GatherKnots` | bd_rate.cpp:80-85 | new x and y of the index array's length, with `x[i] = metric[indices[i]]` and `y[i] = log10(rate[indices[i]])` |
| `CurvePrep.PrepareInput` | bd_rate.cpp:69-86 | rate and metric are only read; x and y are new and have the curve's length; for a permutation `order` of `0..n-1` sorted by rate, `x[i] = metric[order[i]]` and `y[i] = log10(rate[order[i]])` |
| `CurvePrep.SortedArrangementUnique` | bd_rate.cpp:78 | with distinct rates, two rate-sorted arrangements of the same indices are equal |
| `CurvePrep.PreparedCurveUnique` | bd_rate.cpp:74-85 | with distinct rates every valid preparation of a curve gives the same order and the same x and y |
| `CurvePrep.PreparedCurveIgnoresInputOrder` | bd_rate.cpp:74-85 | with distinct rates, giving the samples in any other order yields the same x and y |
| `CurvePrep.TiedRatesAllowTwoPreparations` | bd_rate.cpp:78 | with two equal rates both orders of the tied samples are valid preparations, giving different x |
| `Overlap.MinOf` | bd_rate.cpp:47-48 | the value `std::min_element` finds is an element of the knots and no greater than any of them |
| `Overlap.MaxOf` | bd_rate.cpp:49-50 | the value `std::max_element` finds is an element of the knots and no smaller than any of them |
| `Overlap.Ratio` | bd_rate.cpp:57 | the overlap ratio is never negative, also when main's hull has negative width (its numerator is then 0) |
| `Overlap.RatioAtMostOne` | bd_rate.cpp:57 | for two proper intervals the ratio is at most 1 |
| `Overlap.RatioZeroIffApart` | bd_rate.cpp:57-59 | the ratio is 0 exactly when the intervals are disjoint or touch at a point |
| `Overlap.RatioOneIffSame` | bd_rate.cpp:57 | the ratio is 1 exactly when the two intervals coincide |
| `Overlap.RatioSymmetric` | bd_rate.cpp:52-57 | exchanging the two intervals changes neither hull, intersection nor ratio |
| `Overlap.ApartIffCommonPartIsAPoint` | bd_rate.cpp:52-59 | the zero-overlap condition holds exactly when no two distinct metric values lie in both domains |
| `Overlap.CheckOverlap` | bd_rate.cpp:45-67 | NoOverlap exactly when the domains share at most a point; Insufficient exactly when they overlap by a ratio in (0, min_overlap); otherwise a pass whose window has positive width, ratio in [min_overlap, 1], and covers exactly the values in both domains |
| `Overlap.MainOverlapCheck` | bd_rate.cpp:105-116 | for any first and last knots with a non-zero divisor at line 111: never reports zero overlap separately; rejects exactly when the endpoint ratio is below min_overlap; a pass with a positive ratio has `overlap_x_max > overlap_x_min`, so the divisor at line 134 is non-zero |
| `Overlap.OverlapChecksAgree` | bd_rate.cpp:105-116 | on ascending knots the first/last knots are min/max and the two checks give the same result, except on zero overlap: main then rejects only if min_overlap > 0 and otherwise passes with `hi <= lo` |
| `Overlap.UnsortedKnotsChecksDiffer` | bd_rate.cpp:105-109 | knots out of ascending order make main measure the wrong domains: one input passes `check_overlap` and fails main's check |
| `Overlap.UnsortedKnotsPassMainOnly` | bd_rate.cpp:105-112 | the other direction: an input that passes main's check with ratio 1 fails `check_overlap` with ratio 1/3 |
| `Overlap.MainCheckOnDescendingKnots` | bd_rate.cpp:105-116 | with knots `[1, 0]` for both curves the divisor is -1 and the ratio 0: main rejects for min_overlap 0.5 and passes with `overlap_x_min = 1 > overlap_x_max = 0` for min_overlap 0 |
| `Overlap.MainCheckPassesDisjointCurves` | bd_rate.cpp:108-116 | with min_overlap 0, main passes two disjoint curves with an empty window (`hi < lo`); `check_overlap` rejects them |
| `Overlap.MainCheckPassesTouchingCurves` | bd_rate.cpp:111-116 | with min_overlap 0, main passes two touching curves with a zero-width window; `check_overlap` rejects them |
| `Overlap.CheckOverlapSymmetric` | bd_rate.cpp:47-57 | the check gives the same result when the curves are swapped |
| `Overlap.CheckOverlapSelf` | bd_rate.cpp:57-66 | a curve against itself has ratio 1 and passes for every min_overlap up to 1, with its own domain as the window |
| `Overlap.FullOverlapRequiresSameDomain` | bd_rate.cpp:57-66 | with min_overlap 1 the check passes exactly when both curves have the same min and max |
| `BdRate.WindowIntegral` | bd_rate.cpp:129-132 | inter_A / inter_B is the growth of the spline's antiderivative from overlap_x_min to overlap_x_max; an empty window integrates to 0 |
| `BdRate.WindowIntegralAdditive` | bd_rate.cpp:129-132 | integrals over adjacent windows add up, and reversing the window negates the integral |
| `BdRate.BdDiff` | bd_rate.cpp:134 | bd_diff times the window width equals `inter_B - inter_A`: it is the mean log-rate difference over the window |
| `BdRate.BdRatePercent` | bd_rate.cpp:135 | `exp10(bd_diff) = 1 + bd_rate/100`: the result is the percentage by which test bitrate exceeds anchor bitrate |
| `BdRate.EqualIntegralsGiveZero` | bd_rate.cpp:134-135 | equal integrals give bd_rate 0, given `exp10(0) = 1` |
| `BdRate.BdDiffAntisymmetric` | bd_rate.cpp:134 | swapping the integrals negates bd_diff |
| `BdRate.BdRateSign` | bd_rate.cpp:134-135 | for an increasing exp10, bd_rate is negative, zero or positive exactly when `inter_B` is below, equal to or above `inter_A` |
| `BdRate.SwappedRolesAreReciprocal` | bd_rate.cpp:134-135 | if `exp10(-d) * exp10(d) = 1`, the bitrate ratios for (A, B) and (B, A) multiply to 1 |
| `BdRate.BdRateOf` | bd_rate.cpp:104-135 | from two prepared curves, with `check_overlap` as the overlap check: ZeroSpan exactly when the union of the domains has no width; a rate exactly when the domains overlap by at least min_overlap; a rejection names NoOverlap exactly when the domains share at most a point |
| `BdRate.SelfComparisonIsZero` | bd_rate.cpp:129-135 | a prepared curve against itself gives rate 0 for every min_overlap up to 1, unless all its metrics are equal |
| `BdRate.PreparedSelfComparisonIsZero` | bd_rate.cpp:98-135 | two preparations of one curve with distinct rates compare to rate 0 (or ZeroSpan) |
| `BdRate.SwappedCurvesAreReciprocal` | bd_rate.cpp:104-135 | swapping anchor and test gives a rate exactly when the original order does, and the two bitrate ratios are reciprocal |
| `BdRate.ComputeBdRate` | bd_rate.cpp:88-139 | both curves are valid preparations of the inputs and the result is `BdRateOf` of them (so `check_overlap` replaces main's inline check); identical anchor and test with distinct rates give rate 0 or ZeroSpan |

## Findings

| source | as written | input that shows it | evidently intended | confidence | as-written member | corrected member |
|---|---|---|---|---|---|---|
| bd_rate.cpp:111-116 | main rejects only when `overlap < min_overlap`; there is no zero-overlap case | `min_overlap = 0`, anchor metrics `[0, 1]`, test metrics `[2, 3]`: main passes with `overlap_x_min = 2`, `overlap_x_max = 1`. Touching curves `[0, 1]` and `[1, 2]` pass with a zero-width window, so line 134 divides by 0 | reject curves that do not overlap, as `check_overlap` (lines 59-61) does | medium; not executed | `Overlap.MainCheckPassesDisjointCurves` | `Overlap.CheckOverlap` |

`BdRate.BdRateOf` and `BdRate.ComputeBdRate` use the corrected check. Because
of that, every window they divide by has positive width.

## Left out

- Option parsing with cxxopts, help text, the method-name check and exit codes (bd_rate.cpp:14-43) are not modelled. The spline kind is a two-valued datatype.
- ALGLIB's `spline1dbuildakima`, `spline1dbuildcubic` and `spline1dintegrate` (bd_rate.cpp:119-132) are foreign numerics. The antiderivative of the fitted spline is a function parameter. Nothing is proved about Akima or cubic fitting itself.
- `std::log10` and `exp10` are function parameters. Only `exp10(0) = 1` is assumed, plus monotonicity or reciprocity in the lemmas that say so.
- Floating point is not modelled: reals are exact. This includes the narrowing of `min_overlap` to `float` in `check_overlap` (bd_rate.cpp:46).
- Printing to stdout and stderr becomes returned result values.
- Overlap.CheckOverlap: requires the union of the domains to have positive width. In the source, `0/0` gives NaN there, both comparisons are false, and the check passes.
- Overlap.MainOverlapCheck: requires only that the divisor at line 111 is not zero, for the same reason. A negative divisor, from knots that run downwards, is modelled.
- BdRate.BdRateOf: reports ZeroSpan where the source would go on with NaN.
- BdRate.BdRateOf: uses `check_overlap` (min and max of each curve) where main uses its inline check (first and last knot). On ascending knots the two agree except on zero overlap (`Overlap.OverlapChecksAgree`). On knots that are not ascending (metrics that do not rise with rate) they can differ both ways. Knots `x_A = [1, 0, 3]`, `x_B = [0, 1]`, min_overlap 0.25: main rejects, `BdRateOf` gives a rate (`Overlap.UnsortedKnotsChecksDiffer`). Knots `x_A = [0, 3, 1]`, `x_B = [0, 1]`, min_overlap 0.5: main passes with ratio 1, `BdRateOf` rejects with 1/3 (`Overlap.UnsortedKnotsPassMainOnly`).
- BdRate.ComputeBdRate: runs `check_overlap`'s logic in place of main's inline check (see Findings). Main's own check is modelled by `Overlap.MainOverlapCheck` and related to it by `Overlap.OverlapChecksAgree`.
- BdRate.ComputeBdRate: identical anchor and test curves with tied rates are not proved to give 0. The model lets each `prepare_input` call order tied samples its own way, since the C++ standard leaves the order of equal elements after `std::sort` unspecified; a real `std::sort` gives the same order on the same input, and for one prepared curve `BdRate.SelfComparisonIsZero` gives 0.
- BdRate.ComputeBdRate: requires non-empty curves, because `x[0]` on an empty array is undefined behaviour. Curves with one point, which ALGLIB rejects, are not singled out.
- CurvePrep.PrepareInput: returns new knot arrays. It does not model resizing the caller's ALGLIB arrays in place.
- CurvePrep.SortIndicesByRate: an insertion sort stands in for `std::sort`. Only the outcome is specified: sorted by rate and a permutation, with no promise about tie order.
- Non-positive rates, duplicate metric values and a non-ascending `x` after the sort are not rejected, because the code does not reject them. Stable sorting is not modelled either, because the code uses `std::sort`. `Overlap.UnsortedKnotsChecksDiffer` shows what a non-ascending `x` does to main's check.
