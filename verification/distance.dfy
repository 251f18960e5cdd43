/**
 Comoving and luminosity distances on a redshift grid (`dCs`, `dLs`).

 The expansion factor E(z) of the cosmology is a parameter: the model takes it
 as any function of redshift (with the matter density and equation of state
 already fixed) that is strictly positive on the grid.
 */
module Distance {
  import opened Seqs
  import opened Integrate

  /** E(z) is strictly positive at every grid redshift. */
  predicate PositiveOn(E: real -> real, zs: seq<real>) {
    forall i :: 0 <= i < |zs| ==> 0.0 < E(zs[i])
  }

  /** The comoving-distance integrand `1.0/E(zs)` sampled on the grid. */
  function InverseE(zs: seq<real>, E: real -> real): (inv: seq<real>)
    requires PositiveOn(E, zs)
    ensures |inv| == |zs|
    ensures forall i :: 0 <= i < |zs| ==> inv[i] == 1.0 / E(zs[i])
    ensures AllPositive(inv)
  {
    seq(|zs|, i requires 0 <= i < |zs| => 1.0 / E(zs[i]))
  }

  /** Every element multiplied by k. */
  function Scale(k: real, s: seq<real>): (t: seq<real>)
    ensures |t| == |s|
    ensures forall i :: 0 <= i < |s| ==> t[i] == k * s[i]
  {
    seq(|s|, i requires 0 <= i < |s| => k * s[i])
  }

  /** `dCs`: comoving distances `dH * cumtrapz(1/E, zs)`, one per grid point,
      the first exactly zero. */
  function DCs(zs: seq<real>, dH: real, E: real -> real): (dc: seq<real>)
    requires PositiveOn(E, zs)
    ensures |dc| == |zs|
    ensures |zs| > 0 ==> dc[0] == 0.0
  {
    Scale(dH, CumTrapz(InverseE(zs, E), zs))
  }

  /** On a strictly increasing grid, with dH > 0 and E > 0, the comoving
      distance is strictly increasing in redshift. */
  lemma DCsStrictlyIncreasing(zs: seq<real>, dH: real, E: real -> real)
    requires StrictlyIncreasing(zs)
    requires 0.0 < dH
    requires PositiveOn(E, zs)
    ensures StrictlyIncreasing(DCs(zs, dH, E))
  {
    CumTrapzStrictlyIncreasing(InverseE(zs, E), zs);
    ScaleStrictlyIncreasing(dH, CumTrapz(InverseE(zs, E), zs));
  }

  /** Scaling by a positive factor keeps strict increase. */
  lemma ScaleStrictlyIncreasing(k: real, s: seq<real>)
    requires 0.0 < k
    requires StrictlyIncreasing(s)
    ensures StrictlyIncreasing(Scale(k, s))
  {
    var t := Scale(k, s);
    forall i, j | 0 <= i < j < |t|
      ensures t[i] < t[j]
    {
      ScaleStrict(k, s[i], s[j]);
    }
  }

  lemma ScaleStrict(k: real, a: real, b: real)
    requires 0.0 < k
    requires a < b
    ensures k * a < k * b
  {
  }

  /** `dLs`: luminosity distances `(1+z)*dC`, elementwise. Dividing back by
      1+z recovers the comoving distance wherever z != -1. */
  function DLs(zs: seq<real>, dc: seq<real>): (dl: seq<real>)
    requires |dc| == |zs|
    ensures |dl| == |zs|
    ensures forall i :: 0 <= i < |zs| && zs[i] != -1.0 ==> dl[i] / (1.0 + zs[i]) == dc[i]
  {
    var dl := seq(|zs|, i requires 0 <= i < |zs| => (1.0 + zs[i]) * dc[i]);
    assert forall i :: 0 <= i < |zs| && zs[i] != -1.0 ==> dl[i] / (1.0 + zs[i]) == dc[i] by {
      forall i | 0 <= i < |zs| && zs[i] != -1.0
        ensures dl[i] / (1.0 + zs[i]) == dc[i]
      {
        assert dl[i] == (1.0 + zs[i]) * dc[i];
        CancelFactor(1.0 + zs[i], dc[i]);
      }
    }
    dl
  }

  lemma CancelFactor(a: real, b: real)
    requires a != 0.0
    ensures (a * b) / a == b
  {
  }

  /** Scaling a strictly increasing, non-negative distance by an increasing,
      positive factor 1+z keeps it strictly increasing. */
  lemma DLsStrictlyIncreasing(zs: seq<real>, dc: seq<real>)
    requires |dc| == |zs|
    requires StrictlyIncreasing(zs)
    requires StrictlyIncreasing(dc)
    requires forall i :: 0 <= i < |zs| ==> 0.0 <= zs[i] && 0.0 <= dc[i]
    ensures StrictlyIncreasing(DLs(zs, dc))
  {
    var dl := DLs(zs, dc);
    forall i, j | 0 <= i < j < |dl|
      ensures dl[i] < dl[j]
    {
      ProductStrict(1.0 + zs[i], 1.0 + zs[j], dc[i], dc[j]);
    }
  }

  lemma ProductStrict(a1: real, a2: real, b1: real, b2: real)
    requires 0.0 < a1 <= a2
    requires 0.0 <= b1 < b2
    ensures a1 * b1 < a2 * b2
  {
    assert a1 * b1 <= a2 * b1;
    assert a2 * b1 < a2 * b2;
  }

  /** On a grid starting at z = 0 and strictly increasing, the luminosity
      distances start at 0 and are strictly increasing: they form a valid
      abscissa table for looking redshift up from distance. */
  lemma LuminosityGrid(zs: seq<real>, dH: real, E: real -> real)
    requires |zs| > 0 && zs[0] == 0.0
    requires StrictlyIncreasing(zs)
    requires 0.0 < dH
    requires PositiveOn(E, zs)
    ensures DLs(zs, DCs(zs, dH, E))[0] == 0.0
    ensures StrictlyIncreasing(DLs(zs, DCs(zs, dH, E)))
  {
    var dc := DCs(zs, dH, E);
    DCsStrictlyIncreasing(zs, dH, E);
    assert forall i :: 0 <= i < |zs| ==> 0.0 <= zs[i] && 0.0 <= dc[i] by {
      forall i | 0 <= i < |zs|
        ensures 0.0 <= zs[i] && 0.0 <= dc[i]
      {
        if i > 0 {
          assert zs[0] < zs[i] && dc[0] < dc[i];
        }
      }
    }
    DLsStrictlyIncreasing(zs, dc);
  }
}
