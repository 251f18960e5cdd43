/**
 The trapezoid-rule integrators `tt_trapz` and `tt_cumtrapz` over exact reals.

 Both are built, as in `siren.py`, from the per-interval areas
 `0.5 * (xs[i+1] - xs[i]) * (ys[i+1] + ys[i])`: the definite integral is their
 sum and the cumulative integral is a zero followed by their running sums.
 */
module Integrate {
  import opened Seqs

  /** Area of the trapezoid over the interval [xs[i], xs[i+1]]. */
  function Area(ys: seq<real>, xs: seq<real>, i: nat): (a: real)
    requires |ys| == |xs|
    requires i + 1 < |xs|
  {
    0.5 * (xs[i + 1] - xs[i]) * (ys[i + 1] + ys[i])
  }

  /** The elementwise product `0.5*diff(xs)*(ys[1:]+ys[:-1])`: one area per interval. */
  function Areas(ys: seq<real>, xs: seq<real>): (a: seq<real>)
    requires |ys| == |xs|
    ensures |a| == if |xs| == 0 then 0 else |xs| - 1
    ensures forall i :: 0 <= i < |a| ==> a[i] == Area(ys, xs, i)
  {
    if |xs| < 2 then [] else seq(|xs| - 1, i requires 0 <= i < |xs| - 1 => Area(ys, xs, i))
  }

  /** Sum of a sequence, accumulated left to right. */
  function Sum(s: seq<real>): (t: real) {
    if |s| == 0 then 0.0 else Sum(s[..|s| - 1]) + s[|s| - 1]
  }

  /** Running sums: element i is the sum of the first i+1 elements. */
  function CumSum(s: seq<real>): (c: seq<real>)
    ensures |c| == |s|
    ensures forall i :: 0 <= i < |s| ==> c[i] == Sum(s[..i + 1])
  {
    if |s| == 0 then []
    else
      var front := s[..|s| - 1];
      assert s[..|s|] == s;
      assert forall i :: 0 <= i < |front| ==> CumSum(front)[i] == Sum(s[..i + 1]) by {
        forall i | 0 <= i < |front|
          ensures CumSum(front)[i] == Sum(s[..i + 1])
        {
          assert front[..i + 1] == s[..i + 1];
        }
      }
      CumSum(front) + [Sum(s)]
  }

  /** `tt_trapz`: the trapezoid-rule integral of ys sampled at xs. Fewer than
      two samples integrate to 0 rather than raising an error. */
  function Trapz(ys: seq<real>, xs: seq<real>): (t: real)
    requires |ys| == |xs|
    ensures |xs| < 2 ==> t == 0.0
  {
    Sum(Areas(ys, xs))
  }

  /** A non-negative integrand on a non-decreasing grid has a non-negative
      integral. */
  lemma TrapzNonNegative(ys: seq<real>, xs: seq<real>)
    requires |ys| == |xs|
    requires NonDecreasing(xs)
    requires AllNonNegative(ys)
    ensures 0.0 <= Trapz(ys, xs)
  {
    var a := Areas(ys, xs);
    forall i | 0 <= i < |a|
      ensures 0.0 <= a[i]
    {
      AreaNonNegative(ys, xs, i);
    }
    SumNonNegative(a);
  }

  /** A sum of non-negative terms is non-negative. */
  lemma {:induction false} SumNonNegative(s: seq<real>)
    requires AllNonNegative(s)
    ensures 0.0 <= Sum(s)
  {
    if |s| > 0 {
      SumNonNegative(s[..|s| - 1]);
    }
  }

  /** The areas of a prefix of the grid are a prefix of the areas of the grid. */
  lemma AreasPrefix(ys: seq<real>, xs: seq<real>, k: nat)
    requires |ys| == |xs|
    requires 1 <= k <= |xs|
    ensures Areas(ys[..k], xs[..k]) == Areas(ys, xs)[..k - 1]
  {
    var p, q := Areas(ys[..k], xs[..k]), Areas(ys, xs)[..k - 1];
    assert |p| == |q|;
    forall i | 0 <= i < |p|
      ensures p[i] == q[i]
    {
      assert p[i] == Area(ys[..k], xs[..k], i) == Area(ys, xs, i);
    }
  }

  /** Peeling off the last interval: the integral over n points is the integral
      over the first n-1 points plus the last trapezoid. */
  lemma TrapzStep(ys: seq<real>, xs: seq<real>)
    requires |ys| == |xs| >= 2
    ensures Trapz(ys, xs) == Trapz(ys[..|ys| - 1], xs[..|xs| - 1]) + Area(ys, xs, |xs| - 2)
  {
    AreasPrefix(ys, xs, |xs| - 1);
  }

  /** Each running sum adds one more element to the previous one. */
  lemma CumSumStep(s: seq<real>, i: nat)
    requires i + 1 < |s|
    ensures CumSum(s)[i + 1] == CumSum(s)[i] + s[i + 1]
  {
    assert s[..i + 2][..i + 1] == s[..i + 1];
  }

  /** `tt_cumtrapz` with the initial value fixed at 0: the result has one
      entry per sample, starts at exactly 0 and ends at the full integral. */
  function CumTrapz(ys: seq<real>, xs: seq<real>): (c: seq<real>)
    requires |ys| == |xs|
    ensures |c| == |ys|
    ensures |ys| > 0 ==> c[0] == 0.0
  {
    if |ys| == 0 then []
    else
      [0.0] + CumSum(Areas(ys, xs))
  }

  /** The last cumulative value is the full definite integral. */
  lemma CumTrapzLast(ys: seq<real>, xs: seq<real>)
    requires |ys| == |xs| > 0
    ensures CumTrapz(ys, xs)[|ys| - 1] == Trapz(ys, xs)
  {
    var a := Areas(ys, xs);
    assert a[..|a|] == a;
  }

  /** Element i of the cumulative integral is the definite integral over the
      first i+1 samples. */
  lemma CumTrapzPrefix(ys: seq<real>, xs: seq<real>, i: nat)
    requires |ys| == |xs|
    requires i < |ys|
    ensures CumTrapz(ys, xs)[i] == Trapz(ys[..i + 1], xs[..i + 1])
  {
    if i > 0 {
      var a := Areas(ys, xs);
      AreasPrefix(ys, xs, i + 1);
      assert CumTrapz(ys, xs)[i] == CumSum(a)[i - 1] == Sum(a[..i]);
    }
  }

  /** Consecutive cumulative values differ by exactly one trapezoid. */
  lemma CumTrapzStep(ys: seq<real>, xs: seq<real>, i: nat)
    requires |ys| == |xs|
    requires i + 1 < |xs|
    ensures CumTrapz(ys, xs)[i + 1] == CumTrapz(ys, xs)[i] + Area(ys, xs, i)
  {
    var a := Areas(ys, xs);
    var c := CumTrapz(ys, xs);
    assert c[i + 1] == CumSum(a)[i];
    if i > 0 {
      assert c[i] == CumSum(a)[i - 1];
      CumSumStep(a, i - 1);
    } else {
      assert a[..1][..0] == [];
      assert CumSum(a)[0] == Sum(a[..1]) == Sum(a[..1][..0]) + a[0];
    }
  }

  lemma AreaNonNegative(ys: seq<real>, xs: seq<real>, i: nat)
    requires |ys| == |xs|
    requires i + 1 < |xs|
    requires xs[i] <= xs[i + 1]
    requires 0.0 <= ys[i] && 0.0 <= ys[i + 1]
    ensures 0.0 <= Area(ys, xs, i)
  {
    var dx, sy := xs[i + 1] - xs[i], ys[i + 1] + ys[i];
    assert 0.0 <= dx * sy;
  }

  lemma AreaPositive(ys: seq<real>, xs: seq<real>, i: nat)
    requires |ys| == |xs|
    requires i + 1 < |xs|
    requires xs[i] < xs[i + 1]
    requires 0.0 <= ys[i] && 0.0 < ys[i + 1]
    ensures 0.0 < Area(ys, xs, i)
  {
    var dx, sy := xs[i + 1] - xs[i], ys[i + 1] + ys[i];
    assert 0.0 < dx * sy;
  }

  /** The trapezoid under the line y = a + b*x over [x0, x1] has the analytic area. */
  lemma LineTrapezoid(x0: real, x1: real, a: real, b: real)
    ensures 0.5 * (x1 - x0) * ((a + b * x1) + (a + b * x0)) == a * (x1 - x0) + 0.5 * b * (x1 * x1 - x0 * x0)
  {
  }

  /** With a non-decreasing grid and a non-negative integrand, the cumulative
      integral never decreases. */
  lemma CumTrapzNonDecreasing(ys: seq<real>, xs: seq<real>)
    requires |ys| == |xs|
    requires NonDecreasing(xs)
    requires AllNonNegative(ys)
    ensures NonDecreasing(CumTrapz(ys, xs))
  {
    var c := CumTrapz(ys, xs);
    forall k | 0 <= k < |c| - 1
      ensures c[k] <= c[k + 1]
    {
      CumTrapzWeakStep(ys, xs, k);
    }
    NonDecreasingFromSteps(c);
  }

  lemma CumTrapzWeakStep(ys: seq<real>, xs: seq<real>, k: nat)
    requires |ys| == |xs|
    requires k + 1 < |xs|
    requires xs[k] <= xs[k + 1]
    requires 0.0 <= ys[k] && 0.0 <= ys[k + 1]
    ensures CumTrapz(ys, xs)[k] <= CumTrapz(ys, xs)[k + 1]
  {
    CumTrapzStep(ys, xs, k);
    AreaNonNegative(ys, xs, k);
  }

  /** With a strictly increasing grid and an integrand that is non-negative and
      positive after its first sample, the cumulative integral is strictly
      increasing. */
  lemma CumTrapzStrictlyIncreasing(ys: seq<real>, xs: seq<real>)
    requires |ys| == |xs|
    requires StrictlyIncreasing(xs)
    requires AllNonNegative(ys)
    requires PositiveAfterFirst(ys)
    ensures StrictlyIncreasing(CumTrapz(ys, xs))
  {
    var c := CumTrapz(ys, xs);
    forall k | 0 <= k < |c| - 1
      ensures c[k] < c[k + 1]
    {
      CumTrapzStep(ys, xs, k);
      AreaPositive(ys, xs, k);
    }
    StrictlyIncreasingFromSteps(c);
  }

  /** For a non-negative integrand on a non-decreasing grid every cumulative
      value lies between 0 and the full integral. */
  lemma CumTrapzBounded(ys: seq<real>, xs: seq<real>)
    requires |ys| == |xs|
    requires NonDecreasing(xs)
    requires AllNonNegative(ys)
    ensures forall i :: 0 <= i < |xs| ==> 0.0 <= CumTrapz(ys, xs)[i] <= Trapz(ys, xs)
  {
    CumTrapzNonDecreasing(ys, xs);
    if |xs| > 0 {
      CumTrapzLast(ys, xs);
    }
  }

  /** The rule is exact on straight lines: for ys = a + b*xs the result is the
      analytic integral a*(x1-x0) + b*(x1^2-x0^2)/2 over [x0, x1]. */
  lemma {:induction false} TrapzExactOnLines(ys: seq<real>, xs: seq<real>, a: real, b: real)
    requires |ys| == |xs| >= 1
    requires forall i :: 0 <= i < |xs| ==> ys[i] == a + b * xs[i]
    ensures Trapz(ys, xs) == a * (xs[|xs| - 1] - xs[0]) + 0.5 * b * (xs[|xs| - 1] * xs[|xs| - 1] - xs[0] * xs[0])
  {
    var n := |xs|;
    if n == 1 {
      assert Areas(ys, xs) == [];
    } else {
      TrapzStep(ys, xs);
      TrapzExactOnLines(ys[..n - 1], xs[..n - 1], a, b);
      LineTrapezoid(xs[n - 2], xs[n - 1], a, b);
    }
  }
}
