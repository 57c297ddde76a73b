# Marginal-constrained maximum entropy by Frank–Wolfe

This project models the Frank–Wolfe maximum-entropy engine of the `dit` information-theory
library. The engine lives in `dit/algorithms/maxentropyfw.py`. For a joint distribution and an
order `k`, it finds the distribution of largest entropy that matches every `k`-way marginal.
It works in these steps:

1. **Zero isolation.** Some `k`-way marginal cells have probability mass within `1e-8` of
   zero (NumPy's `isclose` with default tolerances). The engine pins every joint outcome that
   falls into such a cell to zero. The marginal constraints themselves force this only when the
   cell's mass is exactly 0; for a mass in `(0, 1e-8]` they only bound each such outcome by
   `1e-8`. The engine counts these hits, builds one unit equality row per pinned outcome, and
   splits the outcome indices into `zero` and `nonzero` lists.
2. **Initial point.** The columns of the constraint matrix are reduced to the `nonzero`
   outcomes. An interior-point linear program (maximise `t` subject to
   `-1e-8 <= A x - b <= 1e-8` and `x >= t`) gives a start. Entries below `1e-8` in magnitude
   are snapped to zero and the rest are renormalised.
3. **Frank–Wolfe.** Each iteration does three things. It solves the direction program
   `min g·xbar` over `{xbar >= 0, -1e-7 <= A xbar - b <= 1e-7}`. It moves to
   `(i x + 2 xbar) / (i + 2)`. It stops early when the step is shorter than `tol`. At the end,
   entries below `tol` are snapped to zero and the vector is renormalised.
4. **Gradient and expansion.** The gradient `log2 x + 1/ln 2` is forced to zero wherever
   `x <= 0`. The reduced optimum is written back into a zero vector of full length at the
   `nonzero` indices.
5. **The list of distributions.** The list is built as:
   - first, the uniform distribution;
   - then the product of marginals;
   - then one optimised distribution for every order `2 <= k < k_max`;
   - last, the input itself.

The model keeps the engine's control flow:

- Each loop is a `method` proved against a specification function, for example
  `FrankWolfe.Iterate`, `FrankWolfe.FirstStop`, `ZeroIsolation.Hits` or `MaxentDists.Optimised`.
- The lemmas state what these functions guarantee.
- Probabilities are `real`.
- The two cvxopt linear programs are function parameters (oracles). What a correct solver
  delivers is stated as a predicate (`LinearPrograms.DirectionFeasible`,
  `LinearPrograms.InteriorSound`), and lemmas take it as a hypothesis. One more assumption,
  `LinearPrograms.DirectionShaped` (the vertex has one entry per column), is a precondition of
  the Frank–Wolfe methods and of everything that calls them.
- The errors the code raises along the modelled paths (listed under "## Left out" where they
  are not) are `Failure` values of the `MaxentError` datatype. So are the values it would
  compute as NaN.

Modules, one per file:

- `Results`: the `Option` and `Result` wrappers and the error kinds.
- `Vectors`: sums, dot products, the feasible polytope, restriction to index lists and the
  scatter `v[idx] = x`.
- `LinearPrograms`: the two solver oracles and their residual tolerances.
- `Cleanup`: the snap-and-renormalise tail shared by `initial_point` and `frank_wolfe`.
- `ZeroIsolation`: `isolate_zeros`.
- `FeasiblePoint`: `initial_point`.
- `FrankWolfe`: `frank_wolfe`.
- `MarginalMaxent`: `negentropy`, the masked gradient and `marginal_maxent`.
- `MaxentDists`: `marginal_maxent_dists`.

## Model

| member | source | states |
|---|---|---|
| `ZeroIsolation.IsolateZeros` | dit/algorithms/maxentropyfw.py:67-119 | The returned partition is the one the forced-zero mask determines. The equality system has one unit row per forced-zero outcome, or is `None` when there is none. |
| `ZeroIsolation.CountZeroCells` | dit/algorithms/maxentropyfw.py:84-95 | After the nested loop over subsets and cells, entry `i` of the counter is the number of cells with mass close to zero that contain outcome `i`. |
| `ZeroIsolation.PinZeros` | dit/algorithms/maxentropyfw.py:97-113 | The `zero` list is exactly the indices whose count is positive, in increasing order. `A`/`b` are their unit rows with zero right-hand sides, or `None` when the list is empty. |
| `ZeroIsolation.Complement` | dit/algorithms/maxentropyfw.py:115-116 | The `nonzero` list is exactly the indices in `range(n)` that are not in `zero`, in increasing order. |
| `ZeroIsolation.Select` | dit/algorithms/maxentropyfw.py:100-106 | Filtering indices by the mask yields valid, strictly increasing indices. |
| `ZeroIsolation.SelectMembers` | dit/algorithms/maxentropyfw.py:100-106 | An index is selected if and only if it is in range and its mask entry has the wanted value. |
| `ZeroIsolation.SelectCounts` | dit/algorithms/maxentropyfw.py:115-116 | The zero and nonzero lists together have as many entries as there are outcomes. |
| `ZeroIsolation.PartitionOfProperties` | dit/algorithms/maxentropyfw.py:115-117 | `zero` and `nonzero` are sorted, disjoint, and together cover every outcome index exactly once. |
| `ZeroIsolation.CellHitsPositive` | dit/algorithms/maxentropyfw.py:89-95 | Over a list of cells, an outcome's count is positive if and only if some near-zero cell contains it. |
| `ZeroIsolation.HitsPositive` | dit/algorithms/maxentropyfw.py:87-95 | Over all subsets, an outcome's count is positive if and only if it is forced to zero by some marginal cell. |
| `ZeroIsolation.ZeroIffForced` | dit/algorithms/maxentropyfw.py:67-119 | An index lands in `variables.zero` if and only if it is an outcome that lies in some `k`-way marginal cell whose mass is close to zero. |
| `ZeroIsolation.DotUnitRow` | dit/algorithms/maxentropyfw.py:102-103 | The unit row for `i` applied to `x` picks out `x[i]`. |
| `ZeroIsolation.EqualitiesPinZeros` | dit/algorithms/maxentropyfw.py:97-110 | A vector satisfies the returned `A x == b` if and only if it is zero at every listed index. |
| `ZeroIsolation.CloseMassBoundsEntries` | dit/algorithms/maxentropyfw.py:72-73 | For a nonnegative vector, a cell whose mass is close to zero has every entry within `1e-8`. A cell of mass exactly zero has every entry zero. |
| `Cleanup.CleanUp` | dit/algorithms/maxentropyfw.py:277-279 | The snap-and-renormalise method computes the cleaned-up vector, or `None` when the snapped vector sums to zero. |
| `Cleanup.CleanedUp` | dit/algorithms/maxentropyfw.py:277-279 | The cleanup is defined exactly when the snapped vector has a nonzero sum, and then keeps the length. |
| `Cleanup.CleanedUpProperties` | dit/algorithms/maxentropyfw.py:173-176 | The cleaned vector keeps its length and sums to one. Entries below the tolerance in magnitude become zero. Every other entry is divided by the snapped sum. |
| `Cleanup.CleanedUpNonneg` | dit/algorithms/maxentropyfw.py:277-279 | When every entry is nonnegative or small enough to be snapped, the cleaned vector is nonnegative. |
| `Cleanup.CleanedUpDefined` | dit/algorithms/maxentropyfw.py:277-279 | A nonnegative vector with one entry at least the tolerance has a nonzero snapped sum, so the division is defined. |
| `FeasiblePoint.InitialPoint` | dit/algorithms/maxentropyfw.py:142-183 | The method returns the specified initial point. It fails with `NotReduced` on a column-count mismatch and with `InfeasibleInitialPoint` on a non-optimal status. |
| `FeasiblePoint.InitialPointDistribution` | dit/algorithms/maxentropyfw.py:148-176 | For a sound solver whose bound `t` exceeds `-1e-8` (so that every negative entry is snapped), a successful initial point has one entry per nonzero outcome, is nonnegative and sums to one. |
| `FeasiblePoint.InitialPointInterior` | dit/algorithms/maxentropyfw.py:152-176 | When the solver reaches a margin `t >= 1e-8`, the initial point exists and every entry is strictly positive. |
| `FrankWolfe.FirstStop` | dit/algorithms/maxentropyfw.py:240-271 | The index at which the loop breaks is the first iteration whose step is shorter than `tol`. If no step in range is short, it is the iteration bound. |
| `FrankWolfe.Run` | dit/algorithms/maxentropyfw.py:221-282 | The whole routine returns the specified result: the shape check, then the iterations, then the cleanup, then the objective. |
| `FrankWolfe.Iterations` | dit/algorithms/maxentropyfw.py:240-275 | The loop returns the iterate after the first short step with its objective. Otherwise it returns the iterate after `maxiters` steps, with the objective of the iterate before it. For `maxiters <= 0` it returns the start point with no objective. |
| `FrankWolfe.Advance` | dit/algorithms/maxentropyfw.py:241-271 | One iteration produces the next iterate and reports whether its step was shorter than `tol`. |
| `FrankWolfe.Step` | dit/algorithms/maxentropyfw.py:265 | The update `(i x + 2 xbar) / (i + 2)` keeps the length, and every entry lies between the old entry and the vertex's entry. |
| `FrankWolfe.StepFromStart` | dit/algorithms/maxentropyfw.py:265 | The first step (`i = 0`) jumps straight to the direction vertex. |
| `FrankWolfe.StepIsBlend` | dit/algorithms/maxentropyfw.py:265 | The step is the convex combination with weights `i/(i+2)` and `2/(i+2)`. |
| `FrankWolfe.StepSumsToOne` | dit/algorithms/maxentropyfw.py:265 | A step between two vectors that sum to one sums to one. |
| `FrankWolfe.IterateFeasible` | dit/algorithms/maxentropyfw.py:244-267 | From the first iteration on, every iterate is nonnegative and within `1e-7` of `A x = b`, when the direction solver returns feasible vertices. |
| `FrankWolfe.IterateSumsToOne` | dit/algorithms/maxentropyfw.py:265-267 | Every iterate sums to one when the start and every vertex sum to one. |
| `FrankWolfe.StopsAtFirstShortStep` | dit/algorithms/maxentropyfw.py:266-274 | The loop ends early if and only if some step in range is short. It then ends at the first short step, and no earlier step was short. |
| `FrankWolfe.FirstStopAt` | dit/algorithms/maxentropyfw.py:269-271 | If step `k` is short and none before it was, the loop breaks at `k`. |
| `FrankWolfe.NoStopBeforeMeans` | dit/algorithms/maxentropyfw.py:269-271 | Reaching iteration `k` without a break means no earlier step was short. |
| `FrankWolfe.NonpositiveTolRunsOut` | dit/algorithms/maxentropyfw.py:269 | With `tol <= 0` no step is ever short, so the loop always runs to `maxiters`. |
| `FrankWolfe.IterateIgnoresStatus` | dit/algorithms/maxentropyfw.py:253-258 | Two direction solvers that return the same vertices produce the same iterates, whatever statuses they report. |
| `FrankWolfe.FirstStopAgrees` | dit/algorithms/maxentropyfw.py:253-271 | Two such solvers also break at the same iteration. |
| `FrankWolfe.StatusIgnored` | dit/algorithms/maxentropyfw.py:253-255 | A non-optimal direction status changes nothing in the result; it is only reported. Feasibility results built on top (`IterateFeasible`, `FrankWolfeDistribution`) hold only under the assumption that the solver's vertex is feasible whatever status it reports. |
| `FrankWolfe.FrankWolfeDistribution` | dit/algorithms/maxentropyfw.py:276-282 | A successful result has the start's length, is nonnegative and sums to one. |
| `FrankWolfe.FrankWolfeFailures` | dit/algorithms/maxentropyfw.py:232-240 | The result fails with `ShapeMismatch` exactly when `A`'s column count differs from the start's length. It fails with `ObjectiveUnbound` exactly when the shapes agree and `maxiters <= 0`. No other error kind but `NotANumber` occurs. |
| `MarginalMaxent.Gradient` | dit/algorithms/maxentropyfw.py:313-324 | The gradient is zero at every entry with `x[i] <= 0` and `log2 x[i] + 1/ln 2` at every positive entry. |
| `MarginalMaxent.FrozenEntriesIgnored` | dit/algorithms/maxentropyfw.py:317-323 | The linear objective `g·xbar` does not depend on the entries where `x <= 0`. |
| `MarginalMaxent.NegEntropy` | dit/algorithms/maxentropyfw.py:285-291 | `nansum(p log2 p)`: with a logarithm that is not positive on `(0, 1]`, a vector with entries at most 1 has a negentropy of at most 0. |
| `MarginalMaxent.ZeroGradientMoves` | dit/algorithms/maxentropyfw.py:317-323 | Masking does not keep an entry at `x <= 0` fixed: its gradient is 0, and a vertex that is positive there moves it up in the next step. Only `FrozenEntriesIgnored` holds. |
| `MarginalMaxent.NegEntropyOfExpansion` | dit/algorithms/maxentropyfw.py:285-291 | Padding a vector with zeros at the frozen outcomes leaves its negentropy unchanged. |
| `MarginalMaxent.Expand` | dit/algorithms/maxentropyfw.py:329-331 | The full vector has length `n` and is zero outside `nonzero`. Restricted back to `nonzero`, it gives the reduced optimum. |
| `MarginalMaxent.Solve` | dit/algorithms/maxentropyfw.py:293-333 | The pipeline returns the specified result: isolate zeros, reduce the columns, find the initial point, run Frank–Wolfe, expand. |
| `MarginalMaxent.ExpandedIterateMatchesMarginals` | dit/algorithms/maxentropyfw.py:244-267 | The Frank–Wolfe point before the cleanup, after at least one step and expanded with zeros, matches every marginal to within `1e-7`, given feasible vertices. |
| `MarginalMaxent.CleanupLeavesBand` | dit/algorithms/maxentropyfw.py:277-279 | The cleanup can leave the band: `x = [0.9985, 0.0005, 0.001]` matches `A = [[1,1,1],[0,1,0]]`, `b = [1, 0.0005]`, and after cleanup with `tol = 1e-3` the second marginal is off by `5e-4`. |
| `MarginalMaxent.MarginalMaxentDistribution` | dit/algorithms/maxentropyfw.py:293-333 | A successful answer has one entry per outcome, is nonnegative, sums to one, and is zero at every outcome forced to zero by a near-zero marginal cell. |
| `MaxentDists.SolveOrder` | dit/algorithms/maxentropyfw.py:375-376 | Solving one order gives that order's specified optimum. |
| `MaxentDists.OptimiseOrders` | dit/algorithms/maxentropyfw.py:367-379 | The loop skips `0`, `1` and `k_max` and collects the optima of orders `2 <= k < k_max` in order. It stops at the first failure. |
| `MaxentDists.Dists` | dit/algorithms/maxentropyfw.py:352-385 | The method returns the specified list. |
| `MaxentDists.KMax` | dit/algorithms/maxentropyfw.py:352-353 | `k_max` defaults to the number of variables and is otherwise the given value. |
| `MaxentDists.Uniform` | dit/algorithms/maxentropyfw.py:360-361 | The `k = 0` distribution has one entry per outcome and, for at least one outcome, sums to one. |
| `MaxentDists.UniformIsUniform` | dit/algorithms/maxentropyfw.py:360-361 | Every entry of the `k = 0` distribution is `1/n`. |
| `MaxentDists.OptimisedSucceeds` | dit/algorithms/maxentropyfw.py:367-379 | The loop succeeds if and only if every order in range succeeds. A failure is the error of the first failing order. |
| `MaxentDists.OptimisedFailureSticks` | dit/algorithms/maxentropyfw.py:367-379 | Once an order fails, later orders do not change the outcome. |
| `MaxentDists.OptimisedValues` | dit/algorithms/maxentropyfw.py:367-379 | On success there is one optimum per order in range, and entry `j` is the optimum of order `lo + j`. |
| `MaxentDists.DistsShape` | dit/algorithms/maxentropyfw.py:366-385 | The list has length `k_max + 1` (or 3 when `k_max < 2`). It starts with the uniform and product distributions and ends with the input. Entry `k` is the optimum of order `k`, and any failure is a failing order's error. |
| `Vectors.BlendFeasible` | dit/algorithms/maxentropyfw.py:265 | The polytope `{x >= 0, -d <= A x - b <= d}` is closed under the convex combination the step takes. |
| `Vectors.ScatterAt` | dit/algorithms/maxentropyfw.py:330-331 | `v = zeros(n); v[idx] = x` places `x[j]` at `idx[j]` for distinct indices and leaves every other entry zero. |
| `Vectors.ScatterRoundTrip` | dit/algorithms/maxentropyfw.py:330-331 | Restricting the expansion back to its indices gives the reduced vector back. |
| `Vectors.SumScatter` | dit/algorithms/maxentropyfw.py:330-331 | The expansion has the same total mass as the reduced vector. |
| `Vectors.RestrictColumns` | dit/algorithms/maxentropyfw.py:299 | `A[:, idx]` keeps every row, has one column per index, and entry `(r, j)` is `A`'s entry `(r, idx[j])`. |
| `Vectors.DotScatter` | dit/algorithms/maxentropyfw.py:299-331 | A full constraint row applied to the expansion equals the column-reduced row applied to the reduced vector. |
| `Vectors.ReducedSolutionExpands` | dit/algorithms/maxentropyfw.py:299-331 | A solution of the column-reduced system, once expanded with zeros, solves the full system. |

## Left out

- The cvxopt modelling layer and `op_runner` (lines 45-64) are left out. The two
  linear programs are oracle parameters, and their guarantees are hypotheses of the lemmas.
- `check_feasibility` is not part of this model. `marginal_maxent` never calls it.
- `marginal_constraints`, `get_abstract_dist`, `parameter_array` and `prepare_dist` are not
  part of this model. The constraint matrix, the right-hand side and the marginal cells are
  inputs (`MarginalMaxent.Marginals`), and a distribution is its pmf vector.
- `product_distribution` is an input (`product`) of `MaxentDists.Dists`.
- The `Distribution` objects and their `make_sparse` calls are left out. A distribution is its
  dense pmf vector. The `normalize` of the uniform distribution is modelled by
  `MaxentDists.Uniform`.
- The asserts at lines 76-77 of `isolate_zeros` (a dense distribution with a linear base) are
  not modelled: the model's pmf is dense and linear by construction. `prepare_dist` makes the
  distribution dense but does not convert its base, so a distribution with a log base raises
  `AssertionError` there for every order `2 <= k < k_max`; the model has no such input.
- `MarginalMaxent.MarginalMaxentDistribution` does not state that the returned vector matches
  the marginals (`A x` within a band of `b`). The cleanup can break that match: snapping
  entries below `tol` and renormalising can move a marginal by about `tol`
  (`MarginalMaxent.CleanupLeavesBand` gives an instance). What does hold is that the point
  before the cleanup, expanded with zeros, lies in the `1e-7` band
  (`MarginalMaxent.ExpandedIterateMatchesMarginals`).
- Floating point is modelled by exact `real` arithmetic. Rounding, NaN propagation and
  overflow are not modelled. A snapped vector whose sum is zero would become NaN through the
  division; the model returns `Failure(NotANumber)` instead.
- `log2` is a parameter. `negentropy`'s `nansum` is modelled as dropping the terms with
  `p <= 0`. This matches `0 log 0 = nan` being ignored, but a negative entry, whose term would
  also be NaN, is dropped as well.
- `initial_point` always recomputes the zero isolation (lines 130-131), because
  `marginal_maxent` never passes `isolated`. The model covers this by handing `InitialPoint`
  the size of the `nonzero` list that `marginal_maxent` computed; the recomputation gives the
  same partition.
- The `A is None or b is None` branch of `initial_point` (lines 133-139) is left out. It builds
  the constraints itself, and `marginal_maxent` always passes a reduced `A` and `b`.
- A caller that does pass `isolated` reaches line 142 with `variables` unbound and gets a
  `NameError`. The model does not represent this path, because `marginal_maxent` never takes
  it.
- `initial_point` finds `x` among the solver's variables by comparing lengths (lines 167-171).
  The model takes the solver's `x` directly.
- `MarginalMaxent.Solve`'s `InitialPoint` call receives the reduced matrix, so the
  `NotReduced` error in it never fires on this path.
- The `assert` at line 232 is modelled as `Failure(ShapeMismatch)`.
- With `maxiters <= 0`, the code raises `UnboundLocalError` when it reads the unbound `obj`.
  This is modelled as `Failure(ObjectiveUnbound)`.
- The stopping test `norm(xnew - x) < tol` is modelled as `tol > 0 && |xnew - x|^2 < tol^2`.
  Both agree on the reals, and the model needs no square root.
- The optimality gap `opt_bd` and every `print` (progress, non-optimal status, running out of
  iterations) are left out, because they only produce output.
- `LinearPrograms.DirectionFeasible` is an assumption about the solver: that the vertex it
  returns lies in the `1e-7` band whatever status it reports. The code uses the vertex
  regardless of status (lines 253-258), but nothing in it puts a non-optimal answer inside the
  band. So `IterateFeasible`, `FrankWolfeDistribution` and `MarginalMaxentDistribution` say
  that a non-optimal status is harmless only for solvers whose non-optimal answers are still
  feasible.
- `LinearPrograms.DirectionShaped` is likewise an assumption: that every answer, whatever its
  status, carries a vertex of `A.cols` entries. It is a precondition of `FrankWolfe.Run`,
  `FrankWolfe.Iterations`, `MarginalMaxent.Solve` and `MaxentDists.Dists`. Nothing in the code
  guarantees it; an answer without such a vector would make lines 258-265 raise, and the model
  does not represent that error.
- The integer dtype of the equality rows built by `isolate_zeros` is modelled as reals `0.0`
  and `1.0`.
