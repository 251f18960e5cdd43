# Standard-siren distance–redshift core, over exact reals

This project models the numerical core of `siren.py`, the module that turns a
flat dark-energy cosmology into a luminosity-distance–redshift relation and a
selection normaliser for standard-siren inference. Floating-point arrays
become Dafny `seq<real>`, so every fact below holds exactly.

- `Integrate` covers `tt_trapz` and `tt_cumtrapz`. Both are built, as in
  `siren.py`, from the per-interval areas `0.5*diff(xs)*(ys[1:]+ys[:-1])`: the
  definite integral is their sum, and the cumulative integral is a 0
  followed by their running sums.
- `Distance` covers `dCs`, which is `dH * cumtrapz(1/E, zs)`, and `dLs`,
  which is `(1+z)*dC`. The expansion factor `E` is a parameter of type
  `real -> real` (with `Om` and `w` already fixed) and is assumed strictly
  positive on the grid.
- `Interpolate` covers `tt_interp`. It takes a left-sided `searchsorted`
  (the number of knots strictly below `x`), applies the two end fix-ups that
  clamp the index to `[1, n-1]`, and returns the convex combination
  `yl*(1-r) + yr*r`. `BinarySearch` is the binary search that
  `searchsorted` performs; it is proved to compute the same count.
- `Selection` covers `beta`, which is `interp(z_horiz, zs, cumtrapz(pzs, zs))`.
  It also covers the reverse use of the interpolator that `make_model` makes
  to turn the horizon distance into a horizon redshift.
- `Seqs` holds the shared order and sign predicates.

Two behaviours of the code are worth stating on their own:

- `searchsorted` is left-sided, so the chosen segment satisfies
  `xs[i-1] < x <= xs[i]`.
- The integrators raise no error on fewer than two points: `Trapz` is 0 and
  `CumTrapz` is `[]` or `[0]`.

With exact reals, the distance↔redshift round trip holds exactly at every
redshift (`Selection.DistanceRedshiftRoundTrip`). Over floats it holds only
approximately.

## Model

| member | source | states |
|---|---|---|
| Integrate.Areas | siren.py:37-38 | one trapezoid per interval: `n-1` areas for `n >= 1` samples, none for an empty grid, the i-th over `[xs[i], xs[i+1]]` |
| Integrate.Trapz | siren.py:30-38 | fewer than two samples integrate to 0, with no error raised |
| Integrate.TrapzNonNegative | siren.py:37-38 | a non-negative integrand on a non-decreasing grid has a non-negative integral |
| Integrate.CumSum | siren.py:53 | element i of the running sum is the sum of the first i+1 areas; the length is preserved |
| Integrate.TrapzStep | siren.py:37-38 | the integral over n points equals the integral over the first n-1 points plus the last trapezoid |
| Integrate.TrapzExactOnLines | siren.py:30-38 | the trapezoid rule is exact on a straight line `a + b*x`: the result is `a*(x1-x0) + b*(x1²-x0²)/2` |
| Integrate.CumTrapz | siren.py:40-54 | the cumulative integral has the same length as `ys`, and its first element is exactly 0 |
| Integrate.CumTrapzPrefix | siren.py:51-53 | element i of `cumtrapz(ys, xs)` equals `trapz` over the prefixes `ys[..i+1]`, `xs[..i+1]` |
| Integrate.CumTrapzLast | siren.py:51-53 | the last cumulative value equals `trapz(ys, xs)` |
| Integrate.CumTrapzStep | siren.py:53 | consecutive cumulative values differ by exactly one trapezoid area |
| Integrate.CumTrapzNonDecreasing | siren.py:53 | on a non-decreasing grid with `ys >= 0`, the cumulative integral is non-decreasing |
| Integrate.CumTrapzStrictlyIncreasing | siren.py:53 | on a strictly increasing grid with `ys >= 0` and `ys > 0` after the first sample, the cumulative integral is strictly increasing |
| Integrate.CumTrapzBounded | siren.py:51-53 | on a non-decreasing grid with `ys >= 0`, every cumulative value lies in `[0, trapz(ys, xs)]` |
| Distance.InverseE | siren.py:79 | the integrand has one entry per grid redshift, entry i is `1/E(zs[i])`, and every entry is positive |
| Distance.DCs | siren.py:56-79 | there is one comoving distance per grid redshift, and the first is exactly 0 |
| Distance.DCsStrictlyIncreasing | siren.py:79 | if the grid is strictly increasing, `dH > 0` and `E > 0`, then `dCs` is strictly increasing |
| Distance.DLs | siren.py:81-85 | there is one luminosity distance per redshift; dividing it by `1+z` gives back the comoving distance |
| Distance.DLsStrictlyIncreasing | siren.py:85 | a strictly increasing non-negative `dC` on a non-negative strictly increasing grid gives a strictly increasing `dL` |
| Distance.LuminosityGrid | siren.py:79-85 | on a grid that starts at `z = 0` and strictly increases, `dL` starts at 0 and strictly increases |
| Interpolate.SearchSorted | siren.py:108 | the count is at most `n`; it reaches `n` only when the last knot is below `x`, and it is 0 only when `x` is at or below the first knot |
| Interpolate.SearchSortedSplits | siren.py:108 | on a sorted table every knot before the index is `< x` and every knot from the index on is `>= x` (left-sided) |
| Interpolate.SearchSortedUnique | siren.py:108 | any position that splits a sorted table that way is the `searchsorted` index |
| Interpolate.BinarySearch | siren.py:108 | on a sorted table, the binary search returns exactly the count of knots strictly below `x` |
| Interpolate.ClampIndex | siren.py:110-112 | the fixed-up index lies in `[1, n-1]`: 0 becomes 1, `n` becomes `n-1`, and an index already in that range is unchanged |
| Interpolate.Segment | siren.py:108-112 | for `n >= 2` the index lies in `[1, n-1]`, so `xs[i-1]`, `xs[i]`, `ys[i-1]` and `ys[i]` are all in bounds |
| Interpolate.SegmentBrackets | siren.py:108-112 | the chosen segment brackets `x` (`xs[i-1] < x <= xs[i]`), except that the first segment also takes everything below it and the last everything above it |
| Interpolate.SegmentUnique | siren.py:108-112 | any segment that brackets `x` in that sense is the one chosen |
| Interpolate.LineEnds | siren.py:119-120 | the line `yl*(1-r) + yr*r` passes through `(xl, yl)` and `(xr, yr)` |
| Interpolate.LineSlopeForm | siren.py:119-120 | the convex combination `yl*(1-r) + yr*r` equals the point-slope form `yl + (x-xl)*(yr-yl)/(xr-xl)` |
| Interpolate.LineInverse | siren.py:119-120 | evaluating the line with the roles of `x` and `y` swapped undoes it |
| Interpolate.Interp | siren.py:103-120 | the result lies on the line through the two knots of the chosen segment; inside that segment it lies between `yl` and `yr` |
| Interpolate.InterpAtKnot | siren.py:108-120 | the interpolant reproduces `ys[k]` at `xs[k]`, including `k = 0`, where the index is clamped to 1 and `r = 0` |
| Interpolate.InterpAtKnots | siren.py:108-120 | the interpolant reproduces every knot |
| Interpolate.InterpExtrapolatesBelow | siren.py:111-120 | below `xs[0]` the result lies on the line through the first two knots, and it differs from `ys[0]` whenever that line is not flat |
| Interpolate.InterpExtrapolatesAbove | siren.py:112-120 | above `xs[n-1]` the result lies on the line through the last two knots, and it differs from `ys[n-1]` whenever that line is not flat |
| Interpolate.InterpMonotone | siren.py:108-120 | interpolating non-decreasing values gives a non-decreasing function of `x`, extrapolation included |
| Interpolate.InterpStrictlyMonotone | siren.py:108-120 | interpolating strictly increasing values gives a strictly increasing function of `x` |
| Interpolate.InterpRoundTrip | siren.py:103-120 | when both columns strictly increase, interpolating the swapped table inverts the interpolant exactly |
| Selection.Beta | siren.py:125-127 | at every grid redshift `beta` equals the cumulative integral of the density there |
| Selection.CumulativeTable | siren.py:125-127 | the cumulative integral of a non-negative density is a valid, non-decreasing interpolation table |
| Selection.BetaMonotone | siren.py:125-127 | for `pzs >= 0`, `beta` is non-decreasing in the horizon redshift |
| Selection.BetaEndpoints | siren.py:125-127 | `beta(zs[0]) = 0` and `beta(zs[n-1]) = trapz(pzs, zs)` |
| Selection.BetaBounds | siren.py:125-127 | for `pzs >= 0` with `pzs > 0` after the first grid point (the program's density is 0 at `z = 0`), and `zs[0] < z_horiz <= zs[n-1]`, `beta` lies in `(0, trapz(pzs, zs)]` |
| Selection.Luminosities | siren.py:153-154 | one luminosity distance per grid redshift, the first exactly 0 |
| Selection.HorizonRedshift | siren.py:153-156 | inverting `dL` with the forward interpolator is well formed on a valid grid; the redshift found maps forward to the horizon distance, and distance 0 maps to redshift 0 |
| Selection.HorizonRedshiftMonotone | siren.py:156 | a farther horizon distance gives a strictly larger horizon redshift |
| Selection.DistanceRedshiftRoundTrip | siren.py:156-159 | the inverse lookup undoes the forward lookup `interp(zc, z, dL)` at every redshift |

## Left out

- The body of `E` (siren.py:6-28), and `dVdz` and `p_z` (siren.py:87-101, siren.py:122-123). They need `sqrt` and non-integer real powers, which exact reals cannot express. `E` is a positive function parameter instead. The density `pzs` is an input of `beta`. The `1+1.9` constant in `p_z` is not modelled.
- `make_model` (siren.py:129-165), except for lines 153-154, 156, 158 and 159. Line 155 (`p_z`) goes with the density above, and line 157 is `Interp` applied to that density. The rest is model construction in an external probabilistic-programming library: priors, deterministic nodes, the potential term, the log-spaced grid built with `expm1`/`log`/`linspace`, `dH = 2.99792e5/H0`, the density-estimate log-probability and `log(p/b)`. All of it is foreign library calls or transcendental floating-point maths.
- Tensor plumbing: `as_tensor_variable`, `set_subtensor`, broadcasting, and the vectorised scalar-or-array `x` of `tt_interp`. The model's `x` is a scalar; the array case is the same function applied pointwise.
- Shape mismatches. `Trapz`, `CumTrapz` and `DLs` require equal lengths. `siren.py` would fail or broadcast on mismatched shapes.
- Interpolate.Interp: requires at least two knots, equal lengths and strictly increasing `xs`. With one knot `siren.py` reads `xs[-1]` and divides by zero. A repeated knot inside the table still gives a finite result, because the left-sided search never picks a zero-width segment there. Division by zero happens only when `xs[0] == xs[1]` and `x <= xs[0]`, or when `xs[n-2] == xs[n-1]` and `x > xs[n-1]`. With unsorted knots the index depends on the order in which the binary search probes. The tables the program passes, `z` and `dL`, are strictly increasing.
- Distance.DCs: its contract gives only the length and the zero first element. The statement that each entry is `dH` times the prefix trapezoid integral is proved generically for `cumtrapz` (`Integrate.CumTrapzPrefix`). It is not restated for the `1/E` integrand, because that proof is seed-fragile in the solver: it runs out of resource on some random seeds.
- NaN and infinity propagation (non-positive `E`, zero `beta`) and all floating-point rounding. The model uses exact reals.
- `kde_contour.py`: kernel density estimation, random subsampling and plotting, with no stateable logic.
