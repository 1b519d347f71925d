# Adaptive rejection sampling envelope

A Dafny model of the envelope behind an adaptive rejection sampler (Gilks and Wild)
for log-concave densities. The sampler is `Hull<T, R>` in `src/Hull.h`. It is fed by the
log-densities in `src/LogDensity.h`.

The hull is a fixed array of 500 rows, of which the first `num_hull_segments` are live.
Each row holds:
- a support point `x` together with the log-density `h(x)` and its derivative `h'(x)` there;
- the breakpoint `z`, where the row's tangent meets the next row's tangent;
- the log integral of the upper hull over the row, and the running log sum of those integrals;
- the log probability and the log cumulative probability of the row.

Sampling works in trials. Each trial inverts the upper hull's CDF and then runs the squeeze
test against the chord (lower hull). When the squeeze test rejects a candidate, the candidate
becomes a new support point, and the breakpoints and integrals next to it are repaired.

Modules:
- `Doubles` (`doubles.dfy`): IEEE doubles without rounding. A value is NaN, -infinity,
  +infinity or an exact real, and comparison and addition follow IEEE rules.
- `LogDensity` (`log_density.dfy`):
  - parameter validation for the Gamma and Weibull constructors;
  - the Gamma log-density derivative, with its sign and its monotonicity;
  - the Gamma initial pair of support points.
- `Segments` (`segments.dfy`): the row type and the pure parts of the hull, stated on sequences
  of rows:
  - tangent intersections and the breakpoint invariant;
  - the prefix fold of the integrals;
  - the effect of an insert on the row sequence;
  - `argBinarySearch` and the segment choice of `inverseCdf`;
  - the lower hull and the squeeze test.
- `Envelope` (`envelope.dfy`): class `Hull`, with the row array as an `array<HullSegment>` and
  in-place methods for every operation that changes the hull.

The invariant the class keeps is `Hull.Consistent()`. It holds three facts about the live rows:
- every breakpoint is the intersection of the row's tangent with the next row's tangent;
- the last breakpoint is +infinity;
- the integrals, running sums and probabilities are the fold that `normalizeHull` computes.

Initialize establishes `Consistent()`. InsertSegment and DrawSample preserve it.

Transcendental numerics are parameters of type `Numerics`. These are `logspaceAdd`, the
integral of one segment, `log`, and the inversion formula of `inverseCdf`. The log-density
used by the hull is a `Density` value: `pdf`, `pdfDeriv` and the initial pair. The random
stream is a function `draw` from trial positions to uniforms. Trial `t` uses `draw(2 t)` for
the hull inversion and `log(draw(2 t + 1))` as the squeeze value `w`, which is the order in
which `drawSample` and `squeezeTest` call the generator.

The Gamma constructor tests `alpha <= 1` (`src/LogDensity.h:27`), so it rejects a shape of
exactly one. A shape of one is the exponential density, which is log-concave and could be
sampled. The model follows the code: `NewGamma(1.0, b)` is `Err(NotLogConcave)`.

The fallback in `setZcoord` (`src/Hull.h:143`) averages the two log-density values `h`, not
the two support points `x`. The model keeps that average. `TangentsMeet` states it.

## Model

| member | source | states |
|---|---|---|
| LogDensity.NewGamma | src/LogDensity.h:24-31 | The constructor succeeds exactly when `alpha > 1` and `beta > 0`. It rejects shape `alpha <= 1`, including exactly 1, with the log-concavity error. It checks the shape first and then rejects rate `beta <= 0` with the rate error. |
| LogDensity.NewWeibull | src/LogDensity.h:54-61 | The constructor succeeds exactly when `k > 1` and `lamda > 0`. It checks the shape `k` first. |
| LogDensity.Mode | src/LogDensity.h:39 | For valid parameters the mode `(alpha - 1) / beta` is strictly positive. |
| LogDensity.PdfDeriv | src/LogDensity.h:35-37 | For `x != 0` the derivative satisfies `h'(x) * x = (alpha - 1) - beta * x`. For valid parameters and `x > 0` it is negative exactly when `beta * x > alpha - 1`. |
| LogDensity.PdfDerivSign | src/LogDensity.h:35-39 | On `x > 0` the derivative `(alpha - 1)/x - beta` is positive, zero or negative exactly when `x` is below, at or above the mode. |
| LogDensity.PdfDerivDecreasing | src/LogDensity.h:35-37 | For `alpha > 1` the derivative is strictly decreasing on `x > 0`, which is log-concavity. |
| LogDensity.GetInit | src/LogDensity.h:38-46 | Given `sd = sqrt(alpha)/beta`, the right point is `mode + sd`. The left point is `mode/2` when `alpha <= 5.83` and `mode - sd` otherwise. In both branches `0 < left < mode < right` and `mode/2 <= left`. The derivative at the right point is negative. |
| LogDensity.LargeShapeLeftPoint | src/LogDensity.h:42-45 | Above the 5.83 threshold, `mode - sd` lies strictly between `mode/2` and the mode. |
| Segments.TangentsMeet | src/Hull.h:140-143 | When `h'_j - h'_{j+1} > 0`, both tangent lines take the same value at `z`. Otherwise `z = (h_j + h_{j+1})/2`. |
| Segments.IntersectionBetween | src/Hull.h:140-141 | When each tangent lies on or above the other support point (concavity) and the slope drops, `x_j <= z <= x_{j+1}`. |
| Segments.CumIntegralPrefix | src/Hull.h:90-96 | The running `logspaceAdd` sum at row `k` depends only on the raw integrals of rows `0..k`. |
| Segments.NormalizedUnique | src/Hull.h:162-189 | Two normalised row sequences with the same points and breakpoints are equal. So the incremental renormalisation gives the rows a full `normalizeHull` gives. |
| Segments.InsertIndex | src/Hull.h:358 | The new row goes at `origin + 1` exactly when the origin's support point is below `x_new`, and otherwise at `origin`. |
| Segments.Inserted | src/Hull.h:353-361 | After an insert the rows are one longer. Rows before the insert index are unchanged. The insert index holds the origin row with the new point, derivative and value. Rows after it are the old rows shifted one place right. |
| Segments.InsertedBreakpointsAway | src/Hull.h:353-361 | After the shift, every neighbouring pair not involving the new row still meets at its stored breakpoint. The last row still has z = +infinity unless the new row is last. |
| Segments.InsertedRepaired | src/Hull.h:363 | Recomputing only the two breakpoints around the new row restores the breakpoint invariant, with +infinity last. |
| Segments.PrefixIntegrated | src/Hull.h:168-171 | Rows before the first re-integrated row keep valid integrals, so the renormalisation may resume from the stored running sum. |
| Segments.InsertedIncreasing | src/Hull.h:353-361 | Suppose the support points strictly increase, and `x_new` lies strictly between the origin's neighbours and differs from the origin's point. Then the points still strictly increase after the insert. |
| Segments.ResetLeavesFiniteBreakpoint | src/Hull.h:68-71 | With more than two rows, the two rows that `reset` leaves live end in a finite breakpoint, so they break the breakpoint invariant. |
| Segments.ArgBinarySearch | src/Hull.h:192-201 | Terminates on `upper - lower` and returns an index in `[lower, upper]` that is `upper` or has `log_u < cum_prob`. When `cum_prob` does not decrease on the range, no smaller index has `log_u < cum_prob`, so the result is the least such index, or `upper`. |
| Segments.InverseCdf | src/Hull.h:322-327 | The segment chosen for `p` is a live row, and it is the last row or a row whose cumulative probability exceeds `log p`. When the cumulative probabilities do not decrease, it is the least such row. |
| Segments.LowerHull | src/Hull.h:212-225 | The lower hull is -infinity in two cases: `x_trial` is left of the row's support point and the row is the first, or `x_trial` is right of it and the row is the last. |
| Segments.LowerHullIsChord | src/Hull.h:213-222 | Within the support points, the lower hull is the chord through the row's point and its neighbour on `x_trial`'s side. |
| Segments.ChordWeighted | src/Hull.h:216-222 | The weighted average the code computes equals the chord in point-slope form. |
| Segments.ChordEnds | src/Hull.h:216-222 | The chord passes through both of its support points. |
| Segments.LowerHullAtSupport | src/Hull.h:213-222 | At a support point `x_trial == x`, the lower hull equals `h(x)`. |
| Segments.SqueezeTest | src/Hull.h:204-236 | The outcome is ACCEPT or REJECT. ACCEPT holds exactly when `w <= lwr - upr` or `w <= h(x_trial) - upr`. After a REJECT, `hx_trial` holds `h(x_trial)`. |
| Segments.SqueezeOutsideIsExact | src/Hull.h:223-234 | Beyond the first or last support point, the outcome is ACCEPT exactly when the exact test `w <= h(x_trial) - upr` holds. |
| Segments.SqueezeImpliesExact | src/Hull.h:228-234 | When the lower hull is at most `h(x_trial)`, any candidate the squeeze accepts also passes the exact test. |
| Envelope.GammaDensity | src/Hull.h:275 | For a valid Gamma density, the right initial point has a negative derivative, so the doubling loop never runs. The derivative is positive left of the mode. |
| Envelope.FirstSegmentMaxBounds | src/Hull.h:74-81 | `upper_hull_max` bounds the first tangent on `[0, z_0]` and is attained at one end. |
| Envelope.TwoRowHullMaxBounds | src/Hull.h:74-81 | Take two rows where the slope drops from row 0 to row 1, row 1's slope is negative, and `z_0 >= 0` is their tangent intersection. Then `upper_hull_max` bounds the whole two-row upper hull on `x >= 0`: the first tangent up to `z_0` and the second tangent beyond it. When `h'_0 <= h'_1`, the fallback at `src/Hull.h:143` sets `z_0` to an average, and the bound is not claimed. This is what the comment at `src/Hull.h:108` relies on to keep the shifted hull at most one. |
| Envelope.Hull.constructor | src/Hull.h:49-51 | The constructor allocates the 500-row array, stores the density, and sets the count to 2 and the maximum to -infinity. |
| Envelope.Hull.Create | src/Hull.h:49-53 | Construction followed by `initialize`. Failure means every allowed doubling was used. On success the hull is consistent with two rows. Row 0 is at the first initial point and row 1 at the second point doubled `doublings` times, each with the density's `h` and `h'`. Row 1 has `h' < 0` and `z = +infinity`. The maximum is the first tangent's maximum on `[0, z_0]`. When the derivative at the right initial point is already negative, construction succeeds without moving that point. |
| Envelope.Hull.Reset | src/Hull.h:68-71 | The count is 2 and the maximum is -infinity. The array contents are unchanged. |
| Envelope.Hull.InitializeHullMax | src/Hull.h:74-81 | `upper_hull_max` is the first tangent at `z_0` when the slope is positive, and its value at 0 otherwise. |
| Envelope.Hull.NormalizeProbabilities | src/Hull.h:97-101 | Every live row gets `prob = raw - total` and `cum_prob = raw_cum - total`. Points and breakpoints are unchanged. |
| Envelope.Hull.NormalizeHull | src/Hull.h:84-103 | Every live row holds its segment integral and the left `logspaceAdd` fold of the integrals up to it, and is normalised by the total. Only integral fields change. |
| Envelope.Hull.AppendIntegrated | src/Hull.h:91-95 | One loop step of the integration: the new row's integral and running sum make it integrated. |
| Envelope.Hull.SetZcoord | src/Hull.h:130-145 | Only `z` of row `j` changes, to the tangent intersection with row `j + 1`. |
| Envelope.Hull.UpdateZ | src/Hull.h:147-159 | Only the `z` of rows `insert_idx - 1` and `insert_idx` change. They become the tangent intersections with their right neighbours, or +infinity when `insert_idx` is last. |
| Envelope.Hull.RenormalizeHull | src/Hull.h:161-189 | If the rows before `insert_idx - 1` are integrated, afterwards every live row is integrated and normalised. Points and breakpoints are unchanged. |
| Envelope.Hull.OpenGap | src/Hull.h:353-356 | Rows up to the origin are unchanged. Rows after it hold their left neighbour's old contents. The count grows by one. |
| Envelope.Hull.RepairAround | src/Hull.h:363-364 | With the new row written, afterwards the hull is consistent and every support point is unchanged. |
| Envelope.Hull.InsertSegment | src/Hull.h:347-366 | A full hull is left untouched. Otherwise the count grows by one and the live points are those of `Segments.Inserted`, with `hp_xnew = pdfDeriv(x_new)`. The hull stays consistent, with +infinity last. |
| Envelope.Hull.ExtendRightPoint | src/Hull.h:272-281 | The result is `x1` doubled `n` times. The derivative was non-negative at every earlier doubling, and on success it is negative at the result. With a negative derivative at `x1` there is no doubling. |
| Envelope.Hull.Initialize | src/Hull.h:262-291 | On success: two live rows, the left one at the density's first initial point, and the right one at the doubled second point with `hprime_x < 0` and `z = +infinity`. The maximum comes from `initializeHullMax`, and the hull is consistent. Rows 2 to 499 are unchanged. |
| Envelope.Hull.DrawSample | src/Hull.h:238-260 | At most 1000 trials. The count grows by one per rejected trial, capped at 500, and the hull stays consistent. The ghost history `hulls` starts at the old live rows and ends at the new ones. Each trial before the last one rejects its candidate (`RejectedTrial`) and moves the hull one step along the history. The step is `Segments.Inserted` with the density's `h` and `h'` at the candidate, or no change once the hull is full. Every hull in the history keeps the breakpoint invariant and normalised integrals, so by `RejectedHistoryDetermined` the draws fix each intermediate hull and each candidate. Status 1 means trial `trials` drew the returned sample and the squeeze test accepted it. Status 0 means all 1000 trials were used, the hull is full and the sample is untouched. |
| Envelope.Hull.Trial | src/Hull.h:244-257 | One pass of the loop. It draws from the upper hull and applies the squeeze test. On ACCEPT the hull is unchanged and the trial accepts the candidate. On REJECT the candidate is inserted: the count grows by one, capped at 500, and the old and new live rows satisfy `RejectedTrial`. The hull stays consistent either way. |
| Envelope.RejectedTrialDetermined | src/Hull.h:254-256 | A rejected trial leaves exactly one hull. The inserted points fix the breakpoints, and the breakpoints fix the normalised integrals. |
| Envelope.RejectedHistoryDetermined | src/Hull.h:244-257 | Two histories of rejected trials from the same hull with the same length are equal. So the draws decide every hull between trials and every candidate drawn from it. |
| Envelope.RejectedHistoryExtended | src/Hull.h:254-256 | A run of rejected trials followed by one more rejected trial is again a run of rejected trials. |
| Envelope.Hull.CdfSegment | src/Hull.h:293-301 | The scan in `cdf` stops at a live row, because the last breakpoint is +infinity. That row is the first whose breakpoint is not below `x`. |

## Left out

- Rounding: finite doubles are exact reals. Overflow to infinity, underflow and loss of precision are not modelled.
- `integrateSegment`, `log`, `exp`, `log1p` and `logspaceAdd`: fields of `Numerics` without properties. `logspaceAdd` comes from `utils.h`, which is not part of this model.
- Segments.InverseCdf: the abscissa inside the chosen segment comes from an uninterpreted inversion formula, not the expression at `src/Hull.h:328-344`.
- `cdf`: only its segment scan is modelled, as `Hull.CdfSegment`. The log-sum-exp arithmetic after the scan is transcendental.
- The random generator: replaced by the `draw` stream parameter.
- LogDensity.PdfDeriv: requires `x != 0`. At `x = 0` the code returns an IEEE infinity, which reals cannot hold. `Envelope.GammaDensity` has to give a total `pdfDeriv`, so at `x = 0` it returns 0.0 where the code returns +infinity. The hull only evaluates the derivative at initial points, which are positive, and at sampled candidates.
- The Gamma `pdf` and the Weibull `pdf`, `pdfDeriv` and `getInit`: they use `log` and `pow`. Only the Weibull constructor's validation is modelled.
- Envelope.Hull.Initialize: the `isfinite` exit of the doubling loop is replaced by a bound of 2098 doublings (`MAX_DOUBLINGS`). Past that bound, a positive double would have overflowed, and the code throws. A starting point of zero never overflows, so the code would loop forever there. The model stops at the bound instead.
- Envelope.Hull.Create: a C++ constructor that throws becomes a returned `ok == false`. The constructor proper only allocates, and `Initialize` does the rest.
- Envelope.Hull.DrawSample: the number of trials used and the history of hulls are ghost out-parameters. The code returns neither.
- Envelope.Hull.Reset: the code keeps rows 0 and 1 as they are. After an insert, row 1's breakpoint is finite (see `Segments.ResetLeavesFiniteBreakpoint`), so `Reset` does not promise `Consistent()`.
- NaN parameters: a NaN shape passes `alpha <= 1.0` as false in C++. Reals have no NaN, so the model does not cover it.
- `printHull`: console output.
- `src/ars.cpp` (a Python binding that exposes a greeting) and `test.py` (a timing and plotting script): not part of this model.
- The template parameters `T` and `R`: `T` is the `Density` value and `R` is the `draw` stream.
