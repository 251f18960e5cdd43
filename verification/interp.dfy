/**
 The piecewise-linear interpolator `tt_interp` over exact reals.

 The segment is chosen by a left-sided `searchsorted` (the number of knots
 strictly below `x`), clamped to [1, n-1] so that points outside the table are
 extrapolated along the first or last segment; the value is the convex
 combination `yl*(1-r) + yr*r` with `r = (x-xl)/(xr-xl)`.
 */
module Interpolate {
  import opened Seqs

  /** Left-sided `searchsorted`: the number of knots strictly below x. It
      reaches n only when even the last knot is below x, and it is 0 only
      when x is at or below the first knot. */
  function SearchSorted(xs: seq<real>, x: real): (i: nat)
    ensures i <= |xs|
    ensures i == |xs| && 0 < |xs| ==> xs[|xs| - 1] < x
    ensures i == 0 && 0 < |xs| ==> x <= xs[0]
  {
    if |xs| == 0 then 0
    else SearchSorted(xs[..|xs| - 1], x) + (if xs[|xs| - 1] < x then 1 else 0)
  }

  /** On a sorted table the count splits it: knots before it are below x,
      knots from it on are at or above x. */
  lemma {:induction false} SearchSortedSplits(xs: seq<real>, x: real)
    requires NonDecreasing(xs)
    ensures forall j :: 0 <= j < SearchSorted(xs, x) ==> xs[j] < x
    ensures forall j :: SearchSorted(xs, x) <= j < |xs| ==> x <= xs[j]
  {
    if |xs| > 0 {
      var front := xs[..|xs| - 1];
      assert NonDecreasing(front);
      SearchSortedSplits(front, x);
    }
  }

  /** The split point of a sorted table is unique, so it is the count. */
  lemma SearchSortedUnique(xs: seq<real>, x: real, k: nat)
    requires NonDecreasing(xs)
    requires k <= |xs|
    requires forall j :: 0 <= j < k ==> xs[j] < x
    requires forall j :: k <= j < |xs| ==> x <= xs[j]
    ensures SearchSorted(xs, x) == k
  {
    SearchSortedSplits(xs, x);
  }

  /** The binary search `searchsorted` performs, computing the same count. */
  method BinarySearch(xs: seq<real>, x: real) returns (i: nat)
    requires NonDecreasing(xs)
    ensures i == SearchSorted(xs, x)
  {
    var lo, hi := 0, |xs|;
    while lo < hi
      invariant 0 <= lo <= hi <= |xs|
      invariant forall j :: 0 <= j < lo ==> xs[j] < x
      invariant forall j :: hi <= j < |xs| ==> x <= xs[j]
      decreases hi - lo
    {
      var mid := (lo + hi) / 2;
      if xs[mid] < x {
        lo := mid + 1;
      } else {
        hi := mid;
      }
    }
    SearchSortedUnique(xs, x, lo);
    i := lo;
  }

  /** The two `tt.where` fix-ups: 0 becomes 1, then n becomes n-1. */
  function ClampIndex(i: nat, n: nat): (k: nat)
    requires 2 <= n
    requires i <= n
    ensures 1 <= k <= n - 1
    ensures i == 0 ==> k == 1
    ensures i == n ==> k == n - 1
    ensures 1 <= i <= n - 1 ==> k == i
  {
    var k := if i == 0 then 1 else i;
    if k == n then n - 1 else k
  }

  /** Right end of the segment used for x: its left end is at index i-1. */
  function Segment(x: real, xs: seq<real>): (i: nat)
    requires 2 <= |xs|
    ensures 1 <= i <= |xs| - 1
  {
    ClampIndex(SearchSorted(xs, x), |xs|)
  }

  /** On a sorted table the segment brackets x, except that the first segment
      also takes everything to its left and the last everything to its right. */
  lemma SegmentBrackets(x: real, xs: seq<real>)
    requires 2 <= |xs|
    requires NonDecreasing(xs)
    ensures Segment(x, xs) == 1 || xs[Segment(x, xs) - 1] < x
    ensures Segment(x, xs) == |xs| - 1 || x <= xs[Segment(x, xs)]
  {
    SearchSortedSplits(xs, x);
  }

  /** Any segment that brackets x in that sense is the one chosen. */
  lemma SegmentUnique(x: real, xs: seq<real>, k: nat)
    requires 2 <= |xs|
    requires NonDecreasing(xs)
    requires 1 <= k <= |xs| - 1
    requires k == 1 || xs[k - 1] < x
    requires k == |xs| - 1 || x <= xs[k]
    ensures Segment(x, xs) == k
  {
    SegmentBrackets(x, xs);
  }

  /** Value at x of the line through (xl, yl) and (xr, yr), in the
      convex-combination form `siren.py` uses. */
  function Line(xl: real, xr: real, yl: real, yr: real, x: real): (y: real)
    requires xl != xr
  {
    var r := (x - xl) / (xr - xl);
    yl * (1.0 - r) + yr * r
  }

  /** The convex-combination form is the point-slope form of the same line. */
  lemma LineSlopeForm(xl: real, xr: real, yl: real, yr: real, x: real)
    requires xl != xr
    ensures Line(xl, xr, yl, yr, x) == yl + (x - xl) * (yr - yl) / (xr - xl)
  {
    var r := (x - xl) / (xr - xl);
    assert yl * (1.0 - r) + yr * r == yl + r * (yr - yl);
    assert r * (yr - yl) == (x - xl) * (yr - yl) / (xr - xl);
  }

  /** The same line written from its right knot. */
  lemma LineSlopeFormRight(xl: real, xr: real, yl: real, yr: real, x: real)
    requires xl != xr
    ensures Line(xl, xr, yl, yr, x) == yr + (x - xr) * (yr - yl) / (xr - xl)
  {
    LineSlopeForm(xl, xr, yl, yr, x);
    assert (x - xl) * (yr - yl) / (xr - xl) == (x - xr) * (yr - yl) / (xr - xl) + (yr - yl);
  }

  lemma LineEnds(xl: real, xr: real, yl: real, yr: real)
    requires xl != xr
    ensures Line(xl, xr, yl, yr, xl) == yl
    ensures Line(xl, xr, yl, yr, xr) == yr
  {
    assert (xr - xl) / (xr - xl) == 1.0;
  }

  /** A line through a non-decreasing pair of knots is non-decreasing. */
  lemma LineMonotone(xl: real, xr: real, yl: real, yr: real, x1: real, x2: real)
    requires xl < xr
    requires yl <= yr
    requires x1 <= x2
    ensures Line(xl, xr, yl, yr, x1) <= Line(xl, xr, yl, yr, x2)
  {
    var d := xr - xl;
    var r1, r2 := (x1 - xl) / d, (x2 - xl) / d;
    assert r1 <= r2 by {
      assert r2 - r1 == (x2 - x1) / d;
    }
    assert r1 * (yr - yl) <= r2 * (yr - yl) by {
      assert r2 * (yr - yl) - r1 * (yr - yl) == (r2 - r1) * (yr - yl);
    }
    assert yl * (1.0 - r1) + yr * r1 == yl + r1 * (yr - yl);
    assert yl * (1.0 - r2) + yr * r2 == yl + r2 * (yr - yl);
  }

  /** A line through a strictly increasing pair of knots is strictly increasing. */
  lemma LineStrictlyMonotone(xl: real, xr: real, yl: real, yr: real, x1: real, x2: real)
    requires xl < xr
    requires yl < yr
    requires x1 < x2
    ensures Line(xl, xr, yl, yr, x1) < Line(xl, xr, yl, yr, x2)
  {
    var d := xr - xl;
    var r1, r2 := (x1 - xl) / d, (x2 - xl) / d;
    assert r1 < r2 by {
      assert r2 - r1 == (x2 - x1) / d;
    }
    assert r1 * (yr - yl) < r2 * (yr - yl) by {
      assert r2 * (yr - yl) - r1 * (yr - yl) == (r2 - r1) * (yr - yl);
      assert 0.0 < (r2 - r1) * (yr - yl);
    }
    assert Line(xl, xr, yl, yr, x1) == yl + r1 * (yr - yl);
    assert Line(xl, xr, yl, yr, x2) == yl + r2 * (yr - yl);
  }

  /** Reading a line backwards (swapping the roles of x and y) undoes it. */
  lemma LineInverse(xl: real, xr: real, yl: real, yr: real, x: real)
    requires xl != xr
    requires yl != yr
    ensures Line(yl, yr, xl, xr, Line(xl, xr, yl, yr, x)) == x
  {
    var r := (x - xl) / (xr - xl);
    var y := Line(xl, xr, yl, yr, x);
    assert y == yl + r * (yr - yl);
    assert (y - yl) / (yr - yl) == r;
    assert xl + r * (xr - xl) == x;
    assert xl * (1.0 - r) + xr * r == xl + r * (xr - xl);
  }

  /** A well-formed table: at least two knots, one value per knot, strictly
      increasing abscissae. */
  predicate Table(xs: seq<real>, ys: seq<real>) {
    2 <= |xs| && |ys| == |xs| && StrictlyIncreasing(xs)
  }

  /** `tt_interp` for a scalar x. */
  function Interp(x: real, xs: seq<real>, ys: seq<real>): (y: real)
    requires Table(xs, ys)
    ensures var i := Segment(x, xs);
      y == ys[i - 1] + (x - xs[i - 1]) * (ys[i] - ys[i - 1]) / (xs[i] - xs[i - 1])
    ensures var i := Segment(x, xs);
      xs[i - 1] <= x <= xs[i] ==>
        (ys[i - 1] <= y <= ys[i] || ys[i] <= y <= ys[i - 1])
  {
    var i := Segment(x, xs);
    var xl, xr, yl, yr := xs[i - 1], xs[i], ys[i - 1], ys[i];
    LineSlopeForm(xl, xr, yl, yr, x);
    LineBetween(xl, xr, yl, yr, x);
    Line(xl, xr, yl, yr, x)
  }

  /** Between its two knots a line stays between their values. */
  lemma LineBetween(xl: real, xr: real, yl: real, yr: real, x: real)
    requires xl < xr
    ensures xl <= x <= xr ==>
      (yl <= Line(xl, xr, yl, yr, x) <= yr || yr <= Line(xl, xr, yl, yr, x) <= yl)
  {
    LineEnds(xl, xr, yl, yr);
    if xl <= x <= xr {
      if yl <= yr {
        LineMonotone(xl, xr, yl, yr, xl, x);
        LineMonotone(xl, xr, yl, yr, x, xr);
      } else {
        LineMonotone(xl, xr, -yl, -yr, xl, x);
        LineMonotone(xl, xr, -yl, -yr, x, xr);
        LineNegate(xl, xr, yl, yr, x);
        LineNegate(xl, xr, yl, yr, xl);
        LineNegate(xl, xr, yl, yr, xr);
      }
    }
  }

  lemma LineNegate(xl: real, xr: real, yl: real, yr: real, x: real)
    requires xl != xr
    ensures Line(xl, xr, -yl, -yr, x) == -Line(xl, xr, yl, yr, x)
  {
  }

  /** The interpolant passes through every knot, the first one included
      (there the segment is clamped to 1 and r = 0). */
  lemma InterpAtKnot(xs: seq<real>, ys: seq<real>, k: nat)
    requires Table(xs, ys)
    requires k < |xs|
    ensures Interp(xs[k], xs, ys) == ys[k]
  {
    if k == 0 {
      SegmentUnique(xs[0], xs, 1);
      LineEnds(xs[0], xs[1], ys[0], ys[1]);
    } else {
      SegmentUnique(xs[k], xs, k);
      LineEnds(xs[k - 1], xs[k], ys[k - 1], ys[k]);
    }
  }

  lemma InterpAtKnots(xs: seq<real>, ys: seq<real>)
    requires Table(xs, ys)
    ensures forall k :: 0 <= k < |xs| ==> Interp(xs[k], xs, ys) == ys[k]
  {
    forall k | 0 <= k < |xs|
      ensures Interp(xs[k], xs, ys) == ys[k]
    {
      InterpAtKnot(xs, ys, k);
    }
  }

  /** Below the first knot the value follows the line through the first two
      knots, so it moves with x instead of staying at ys[0]. */
  lemma InterpExtrapolatesBelow(x: real, xs: seq<real>, ys: seq<real>)
    requires Table(xs, ys)
    requires x <= xs[0]
    ensures Interp(x, xs, ys) == ys[0] + (x - xs[0]) * (ys[1] - ys[0]) / (xs[1] - xs[0])
    ensures x < xs[0] && ys[0] != ys[1] ==> Interp(x, xs, ys) != ys[0]
  {
    SegmentUnique(x, xs, 1);
    assert Interp(x, xs, ys) == Line(xs[0], xs[1], ys[0], ys[1], x);
    LineSlopeForm(xs[0], xs[1], ys[0], ys[1], x);
    if x < xs[0] && ys[0] != ys[1] {
      NonzeroQuotient(x - xs[0], ys[1] - ys[0], xs[1] - xs[0]);
    }
  }

  /** Above the last knot the value follows the line through the last two
      knots, so it moves with x instead of staying at ys[n-1]. */
  lemma InterpExtrapolatesAbove(x: real, xs: seq<real>, ys: seq<real>)
    requires Table(xs, ys)
    requires xs[|xs| - 1] <= x
    ensures var n := |xs|;
      Interp(x, xs, ys) == ys[n - 2] + (x - xs[n - 2]) * (ys[n - 1] - ys[n - 2]) / (xs[n - 1] - xs[n - 2])
    ensures var n := |xs|;
      xs[n - 1] < x && ys[n - 2] != ys[n - 1] ==> Interp(x, xs, ys) != ys[n - 1]
  {
    var n := |xs|;
    var xl, xr, yl, yr := xs[n - 2], xs[n - 1], ys[n - 2], ys[n - 1];
    SegmentUnique(x, xs, n - 1);
    assert Interp(x, xs, ys) == Line(xl, xr, yl, yr, x);
    LineSlopeForm(xl, xr, yl, yr, x);
    if xr < x && yl != yr {
      LineSlopeFormRight(xl, xr, yl, yr, x);
      NonzeroQuotient(x - xr, yr - yl, xr - xl);
    }
  }

  lemma NonzeroQuotient(a: real, b: real, d: real)
    requires a != 0.0 && b != 0.0 && d != 0.0
    ensures a * b / d != 0.0
  {
  }

  /** Interpolating non-decreasing values gives a non-decreasing function of x,
      extrapolated parts included. */
  lemma InterpMonotone(xs: seq<real>, ys: seq<real>, x1: real, x2: real)
    requires Table(xs, ys)
    requires NonDecreasing(ys)
    requires x1 <= x2
    ensures Interp(x1, xs, ys) <= Interp(x2, xs, ys)
  {
    var i1, i2 := Segment(x1, xs), Segment(x2, xs);
    SegmentBrackets(x1, xs);
    SegmentBrackets(x2, xs);
    if i1 == i2 {
      LineMonotone(xs[i1 - 1], xs[i1], ys[i1 - 1], ys[i1], x1, x2);
    } else {
      assert i1 < i2;
      LineEnds(xs[i1 - 1], xs[i1], ys[i1 - 1], ys[i1]);
      LineEnds(xs[i2 - 1], xs[i2], ys[i2 - 1], ys[i2]);
      LineMonotone(xs[i1 - 1], xs[i1], ys[i1 - 1], ys[i1], x1, xs[i1]);
      LineMonotone(xs[i2 - 1], xs[i2], ys[i2 - 1], ys[i2], xs[i2 - 1], x2);
      assert ys[i1] <= ys[i2 - 1];
    }
  }

  /** Interpolating strictly increasing values gives a strictly increasing
      function of x, extrapolated parts included. */
  lemma InterpStrictlyMonotone(xs: seq<real>, ys: seq<real>, x1: real, x2: real)
    requires Table(xs, ys)
    requires StrictlyIncreasing(ys)
    requires x1 < x2
    ensures Interp(x1, xs, ys) < Interp(x2, xs, ys)
  {
    var i1, i2 := Segment(x1, xs), Segment(x2, xs);
    SegmentBrackets(x1, xs);
    SegmentBrackets(x2, xs);
    if i1 == i2 {
      LineStrictlyMonotone(xs[i1 - 1], xs[i1], ys[i1 - 1], ys[i1], x1, x2);
    } else {
      assert i1 < i2;
      LineEnds(xs[i1 - 1], xs[i1], ys[i1 - 1], ys[i1]);
      LineEnds(xs[i2 - 1], xs[i2], ys[i2 - 1], ys[i2]);
      LineMonotone(xs[i1 - 1], xs[i1], ys[i1 - 1], ys[i1], x1, xs[i1]);
      LineMonotone(xs[i2 - 1], xs[i2], ys[i2 - 1], ys[i2], xs[i2 - 1], x2);
      if i1 < i2 - 1 {
        assert ys[i1] < ys[i2 - 1];
      } else if x1 < xs[i1] {
        LineStrictlyMonotone(xs[i1 - 1], xs[i1], ys[i1 - 1], ys[i1], x1, xs[i1]);
      } else {
        LineStrictlyMonotone(xs[i2 - 1], xs[i2], ys[i2 - 1], ys[i2], xs[i2 - 1], x2);
      }
    }
  }

  /** When the values are strictly increasing too, interpolating the swapped
      table inverts the interpolant exactly, at every x: the forward lookup
      lands in the same segment of ys that x occupies in xs. */
  lemma InterpRoundTrip(xs: seq<real>, ys: seq<real>, x: real)
    requires Table(xs, ys)
    requires StrictlyIncreasing(ys)
    ensures Interp(Interp(x, xs, ys), ys, xs) == x
  {
    var i := Segment(x, xs);
    var y := Interp(x, xs, ys);
    SegmentBrackets(x, xs);
    LineEnds(xs[i - 1], xs[i], ys[i - 1], ys[i]);
    if i != 1 {
      LineStrictlyMonotone(xs[i - 1], xs[i], ys[i - 1], ys[i], xs[i - 1], x);
    }
    if i != |xs| - 1 {
      LineMonotone(xs[i - 1], xs[i], ys[i - 1], ys[i], x, xs[i]);
    }
    SegmentUnique(y, ys, i);
    LineInverse(xs[i - 1], xs[i], ys[i - 1], ys[i], x);
  }
}
