/**
 The selection normaliser `beta` and the distance-to-redshift lookup that
 feeds it its horizon redshift.
 */
module Selection {
  import opened Seqs
  import opened Integrate
  import opened Interpolate
  import opened Distance

  /** `beta`: the population density pzs integrated from the first grid
      redshift up to the horizon redshift, by interpolating its cumulative
      trapezoid integral. At a grid redshift it is exactly the cumulative
      integral there. */
  function Beta(zHoriz: real, zs: seq<real>, pzs: seq<real>): (b: real)
    requires Table(zs, pzs)
    ensures forall k :: 0 <= k < |zs| && zs[k] == zHoriz ==> b == CumTrapz(pzs, zs)[k]
  {
    var c := CumTrapz(pzs, zs);
    assert forall k :: 0 <= k < |zs| && zs[k] == zHoriz ==> Interp(zHoriz, zs, c) == c[k] by {
      forall k | 0 <= k < |zs| && zs[k] == zHoriz
        ensures Interp(zHoriz, zs, c) == c[k]
      {
        InterpAtKnot(zs, c, k);
      }
    }
    Interp(zHoriz, zs, c)
  }

  /** The cumulative integral of a non-negative density, on a strictly
      increasing grid, is a non-decreasing interpolation table. */
  lemma CumulativeTable(zs: seq<real>, pzs: seq<real>)
    requires Table(zs, pzs)
    requires AllNonNegative(pzs)
    ensures Table(zs, CumTrapz(pzs, zs))
    ensures NonDecreasing(CumTrapz(pzs, zs))
  {
    StrictlyIncreasingIsNonDecreasing(zs);
    CumTrapzNonDecreasing(pzs, zs);
  }

  /** A farther horizon never lowers beta when the density is non-negative. */
  lemma BetaMonotone(zs: seq<real>, pzs: seq<real>, z1: real, z2: real)
    requires Table(zs, pzs)
    requires AllNonNegative(pzs)
    requires z1 <= z2
    ensures Beta(z1, zs, pzs) <= Beta(z2, zs, pzs)
  {
    CumulativeTable(zs, pzs);
    InterpMonotone(zs, CumTrapz(pzs, zs), z1, z2);
  }

  /** At the first grid redshift beta is 0; at the last it is the whole
      trapezoid integral of the density. */
  lemma BetaEndpoints(zs: seq<real>, pzs: seq<real>)
    requires Table(zs, pzs)
    ensures Beta(zs[0], zs, pzs) == 0.0
    ensures Beta(zs[|zs| - 1], zs, pzs) == Trapz(pzs, zs)
  {
    var cz := CumTrapz(pzs, zs);
    InterpAtKnot(zs, cz, 0);
    InterpAtKnot(zs, cz, |zs| - 1);
    CumTrapzLast(pzs, zs);
  }

  /** For a non-negative density that is positive beyond the first grid
      redshift (the density the program passes in vanishes at z = 0, where
      the comoving volume does), and a horizon inside the grid beyond its
      first point, beta lies in (0, trapz(pzs, zs)], so the `b` in log(p/b)
      is positive. */
  lemma BetaBounds(zs: seq<real>, pzs: seq<real>, zHoriz: real)
    requires Table(zs, pzs)
    requires AllNonNegative(pzs)
    requires PositiveAfterFirst(pzs)
    requires zs[0] < zHoriz <= zs[|zs| - 1]
    ensures 0.0 < Beta(zHoriz, zs, pzs) <= Trapz(pzs, zs)
  {
    var cz := CumTrapz(pzs, zs);
    CumTrapzStrictlyIncreasing(pzs, zs);
    BetaEndpoints(zs, pzs);
    InterpStrictlyMonotone(zs, cz, zs[0], zHoriz);
    BetaMonotone(zs, pzs, zHoriz, zs[|zs| - 1]);
  }

  /** A redshift grid: at least two points, starting at 0, strictly increasing. */
  predicate Grid(zs: seq<real>) {
    2 <= |zs| && zs[0] == 0.0 && StrictlyIncreasing(zs)
  }

  /** Luminosity distances on the grid, `dLs(z, dCs(z, dH, Om, w))`: one per
      grid redshift, the first exactly 0. */
  function Luminosities(zs: seq<real>, dH: real, E: real -> real): (dl: seq<real>)
    requires PositiveOn(E, zs)
    ensures |dl| == |zs|
    ensures |zs| > 0 ==> dl[0] == 0.0
  {
    DLs(zs, DCs(zs, dH, E))
  }

  /** The horizon redshift: the luminosity-distance table read backwards,
      with the same interpolator used forwards. On a valid grid the distance
      table is strictly increasing, so the lookup is well formed; the redshift
      found maps forward to exactly the horizon distance, and a zero distance
      maps to zero redshift. */
  function HorizonRedshift(dlHorizon: real, zs: seq<real>, dH: real, E: real -> real): (z: real)
    requires Grid(zs)
    requires 0.0 < dH
    requires PositiveOn(E, zs)
    ensures Interp(z, zs, Luminosities(zs, dH, E)) == dlHorizon
    ensures dlHorizon == 0.0 ==> z == 0.0
  {
    var dl := Luminosities(zs, dH, E);
    LuminosityGrid(zs, dH, E);
    InterpRoundTrip(dl, zs, dlHorizon);
    InterpAtKnot(dl, zs, 0);
    assert dl[0] == 0.0;
    Interp(dlHorizon, dl, zs)
  }

  /** A farther horizon distance gives a larger horizon redshift. */
  lemma HorizonRedshiftMonotone(d1: real, d2: real, zs: seq<real>, dH: real, E: real -> real)
    requires Grid(zs)
    requires 0.0 < dH
    requires PositiveOn(E, zs)
    requires d1 < d2
    ensures HorizonRedshift(d1, zs, dH, E) < HorizonRedshift(d2, zs, dH, E)
  {
    LuminosityGrid(zs, dH, E);
    InterpStrictlyMonotone(Luminosities(zs, dH, E), zs, d1, d2);
  }

  /** Reading a redshift's distance back gives that redshift: the
      forward lookup `interp(zc, z, dL)` and the inverse lookup compose to the
      identity, at every redshift, not only at the grid points. */
  lemma DistanceRedshiftRoundTrip(zc: real, zs: seq<real>, dH: real, E: real -> real)
    requires Grid(zs)
    requires 0.0 < dH
    requires PositiveOn(E, zs)
    ensures HorizonRedshift(Interp(zc, zs, Luminosities(zs, dH, E)), zs, dH, E) == zc
  {
    LuminosityGrid(zs, dH, E);
    InterpRoundTrip(zs, Luminosities(zs, dH, E), zc);
  }
}
