# Quantum error-correction resource estimator, modelled in Dafny

`scripts/generate-plot.py` estimates how many physical qubits an error-correcting
code needs to reach a target logical error rate epsilon_L. It does this at a range
of physical error rates p. The estimate has three parts, and this project models
each one.

- **The code library** (`CodeLibrary`). There are six code variants: surface,
  hypergraph product, lifted product, color, and the 1D and 2D yoked surface
  codes. Each has a noise threshold and a forward formula
  `calculate_params(p, n, k, epsilon_L)`. The formula maps a physical-qubit budget n
  and k logical qubits to a result record.
  - The lattice variants report a distance d and an ancilla count.
    The inner distance is `d_in = int(sqrt(n / k))`.
    The yoked variants multiply it by 1.8 or 3.2.
    The exponent is d / 2 or ceil(d / 2).
  - The two LDPC-style variants report only epsilon_L and n.
  - Modules: `Registry` (registry.dfy) and `Formulas` (formulas.dfy).
    The laws proved about them are in `FormulaLaws` (formula_laws.dfy).
- **The bisection for n**. This is the inner loop of `generate_plot_data`.
  - It runs 30 steps over the bracket [10, 1e10].
  - At each midpoint it evaluates the formula.
  - It keeps the result whose `|log10 epsilon_L - log10 target|` is smallest so far.
  - It raises n_min when epsilon_L exceeds the target, and lowers n_max otherwise.
  - It stops early once n_min passes 1e9.
  - Module `Search` (search.dfy).
- **The curve sampler**. This is the outer loop of `generate_plot_data`.
  - It walks 50 log-spaced p values from 1e-6 to 0.99 * threshold.
  - It searches n at each p and appends p and the found n to two parallel lists.
  - When the best result lies beyond 1e9, it pops the pending p and stops.
  - Module `Sampler` (sampler.dfy).

Floats are modelled as exact reals. The library functions `x ** y` and `np.log10`
are a parameter of type `MathLib.MathLib`, so every operation is defined for any
choice of them. Lemmas that need their mathematical behaviour require only the
laws they use, stated as predicates in mathlib.dfy:
- positivity;
- monotonicity of the power in base and exponent, non-strict and strict;
- `10 ** y` increasing;
- `log10` increasing, and inverted by `10 ** y`.

Python exceptions are values of `Results.Result`:
- `KeyError` for an unknown code name;
- `ZeroDivisionError` for k = 0;
- `ValueError` from `int()` of the NaN that `np.sqrt` gives for a negative n / k.

Each state-changing loop is a method proved against a function that specifies it:
- `Search.BracketSearch` returns exactly `Search.Search`;
- `Sampler.GeneratePlotData` returns exactly `Sampler.Generate`.

The lemmas then prove what the source promises about those functions: bracket
invariants, best-seen minimality, list lengths and bounds, and the error cases.

What the code implies, stated precisely:
- **d, n_ancilla and epsilon_L change with n only in steps.**
  `d_in = int(sqrt(n / k))` is constant over ranges of n. So the reported
  distance, the ancilla count and epsilon_L of a lattice code are only
  non-decreasing or non-increasing in n
  (`FormulaLaws.InnerDistanceMonotone`, `FormulaLaws.LatticeGrowsWithN`,
  `FormulaLaws.EpsilonAntitoneInN`).
- **epsilon_L grows strictly with p once n >= k.** Then d_in >= 1, so every
  exponent of p_ratio is positive, and a power with a positive exponent grows
  strictly in its base (`FormulaLaws.EpsilonIncreasingInP`). For n < k the
  lattice exponent is 0 and epsilon_L does not depend on p; the non-strict
  form holds for every n >= 1 (`FormulaLaws.EpsilonMonotoneInP`).
- **Yoking strictly improves suppression once n >= k.** For d_in >= 1 the
  exponents are strictly ordered: d / 2 < ceil(int(1.8 d) / 2) < ceil(int(3.2 d) / 2).
  So below 0.011 the 2D-yoked epsilon_L is below the 1D-yoked one, which is
  below the surface one (`FormulaLaws.YokedSuppressionStrict`). For every n
  the order holds non-strictly (`FormulaLaws.YokedSuppression`).
- **The yoked distances dominate strictly only from small distances up.** The
  1D-yoked distance exceeds the surface distance only when d_in >= 2. The
  2D-yoked distance exceeds the 1D one only when d_in >= 1.
  `FormulaLaws.DistanceOrdering` states both directions.
- **The search has no "no solution" result.** The code returns the best result or
  the last midpoint, and the sampler truncates only when that best n exceeds 1e9.
- **The "n <= 1e9" bound needs a positive target.** When no probe has a finite log
  distance, the code records the last midpoint with no ceiling check. This always
  happens when the target is not positive. So recorded counts are at most 1e9 only
  for a positive target (`Sampler.PlotBounds`).

## Model

| member | source | states |
|---|---|---|
| Registry.Lookup | scripts/generate-plot.py:14-51 | `codes[name]` finds a code exactly under its key, and finds none (KeyError) for any name that is no code's key |
| Registry.LookupKey | scripts/generate-plot.py:14-51 | every variant is stored under its own key, so the six keys are distinct |
| Registry.Threshold | scripts/generate-plot.py:14-51 | every threshold constant lies in [0.0036, 0.011] |
| Registry.ThresholdTable | scripts/generate-plot.py:14-51 | the yoked variants share the surface threshold; color < hypergraph < lifted < surface |
| Formulas.Isqrt | scripts/generate-plot.py:55 | the integer root r of m satisfies r^2 <= m < (r+1)^2 |
| Formulas.IsqrtUnique | scripts/generate-plot.py:55 | that r is the only such integer |
| Formulas.InnerDistance | scripts/generate-plot.py:55 | for k > 0, d_in = int(sqrt(n / k)) is the largest d with k * d^2 <= n |
| Formulas.InnerDistanceUnique | scripts/generate-plot.py:55 | d_in is the only d with k * d^2 <= n < k * (d+1)^2 |
| Formulas.SqrtOfRatio | scripts/generate-plot.py:55 | int(np.sqrt(n / k)) raises exactly for k = 0 (division by zero) and for k < 0 with n > 0 (NaN); for k < 0 and n = 0 it is 0 |
| Formulas.Yoked | scripts/generate-plot.py:100-101 | int(mu * d_in) with mu in tenths is the floor: 10 * d <= mu * d_in < 10 * (d+1) |
| Formulas.CeilHalf | scripts/generate-plot.py:86 | np.ceil(d / 2) = e with d <= 2e <= d + 1 |
| Formulas.Ratio | scripts/generate-plot.py:53-133 | each formula's p_ratio divides p by that code's registry threshold |
| Formulas.LatticeExponent | scripts/generate-plot.py:53-133 | the exponent is exactly d / 2 for the surface code, and an integer e with d <= 2e <= d + 1 for color and yoked codes |
| Formulas.AncillaCount | scripts/generate-plot.py:56 | k*(d-1)^2 + 2k(d-1) equals the closed form k*(d^2 - 1) |
| Formulas.SurfaceParams | scripts/generate-plot.py:53-64 | raises exactly for k = 0 or k < 0 < n; otherwise a lattice record echoing n and k, whose d satisfies k*d^2 <= n < k*(d+1)^2 for k > 0, with k*(d^2 - 1) ancillas and the lattice epsilon_L at d |
| Formulas.HypergraphParams | scripts/generate-plot.py:66-72 | never raises and echoes n; epsilon_L is positive for p > 0 when pow is |
| Formulas.LiftedParams | scripts/generate-plot.py:74-80 | never raises and echoes n; epsilon_L is positive for p > 0 when pow is |
| Formulas.ColorParams | scripts/generate-plot.py:82-93 | raises exactly for k = 0 or k < 0 < n; otherwise the surface lattice (same d and ancillas) with the color epsilon_L at d |
| Formulas.Yoked1DParams | scripts/generate-plot.py:95-113 | raises exactly for k = 0 or k < 0 < n; for k > 0 reports d = int(1.8 d_in) and 1.2 * k*(d_in^2 - 1) ancillas counted from the inner distance, with the 1D-yoked epsilon_L at d |
| Formulas.Yoked2DParams | scripts/generate-plot.py:115-133 | raises exactly for k = 0 or k < 0 < n; for k > 0 reports d = int(3.2 d_in) and 1.5 * k*(d_in^2 - 1) ancillas counted from the inner distance, with the 2D-yoked epsilon_L at d |
| Formulas.Evaluate | scripts/generate-plot.py:53-133 | calculate_params raises exactly for a lattice code with k = 0 or k < 0 < n, with that exception; otherwise it echoes n, reports d and n_ancilla exactly for the lattice codes, and echoes k |
| FormulaLaws.InnerDistanceMonotone | scripts/generate-plot.py:55 | a larger n never gives a smaller d_in |
| FormulaLaws.AncillaNonNegative | scripts/generate-plot.py:56 | the ancilla count is non-negative for k >= 0 and d >= 1 |
| FormulaLaws.AncillaGrowsWithN | scripts/generate-plot.py:55-56 | for fixed k >= 1 the ancilla count does not decrease in n |
| FormulaLaws.SurfaceExamples | scripts/generate-plot.py:53-64 | n = 1000, k = 1 gives d = 31, 960 ancillas, exponent 15.5; n = 9 gives d = 3, 8 ancillas |
| FormulaLaws.ColorExample | scripts/generate-plot.py:82-93 | the color code at n = 1000, k = 1 has d = 31, 960 ancillas and exponent 16 |
| FormulaLaws.YokedExamples | scripts/generate-plot.py:95-133 | the yoked codes at n = 1000, k = 1 report d = 55 and 99, exponents 28 and 50, ancillas 1152 and 1440 |
| FormulaLaws.DistanceOrdering | scripts/generate-plot.py:95-133 | surface d <= 1D-yoked d <= 2D-yoked d, strict exactly when d_in >= 2 and d_in >= 1; yoked ancillas are 1.2 and 1.5 times the surface count |
| FormulaLaws.RatioBelowOne | scripts/generate-plot.py:53-133 | below its threshold a code's p_ratio lies in (0, 1) |
| FormulaLaws.ExponentMonotone | scripts/generate-plot.py:53-133 | a larger lattice distance never gives a smaller exponent |
| FormulaLaws.ReportedDistanceMonotone | scripts/generate-plot.py:53-133 | every lattice code's reported d does not decrease in n |
| FormulaLaws.EpsilonShape | scripts/generate-plot.py:53-133 | for k >= 1 every formula succeeds; a lattice code reports its own distance (d_in, int(1.8 d_in) or int(3.2 d_in)), the ancilla count of d_in scaled by 1, 1.2 or 1.5, and the lattice power law at its distance; an LDPC-style code reports its power law in n |
| FormulaLaws.LatticeGrowsWithN | scripts/generate-plot.py:53-133 | for fixed k >= 1 the distance and the ancilla count every lattice code reports never decrease in n |
| FormulaLaws.LatticeEpsilonPositive | scripts/generate-plot.py:57 | for p > 0 and a positive pow, a lattice epsilon_L is positive exactly when k > 0, and 0 for k = 0 |
| FormulaLaws.LatticeEpsilonAntitone | scripts/generate-plot.py:53-133 | below threshold a larger distance never raises a lattice code's epsilon_L |
| FormulaLaws.AlgebraicEpsilonAntitone | scripts/generate-plot.py:66-80 | below threshold a larger n never raises the hypergraph or lifted epsilon_L |
| FormulaLaws.EpsilonAntitoneInN | scripts/generate-plot.py:53-133 | below threshold, for every code, more physical qubits never raise epsilon_L |
| FormulaLaws.LatticeEpsilonMonotoneInP | scripts/generate-plot.py:53-133 | at a fixed distance a larger p never lowers a lattice code's epsilon_L |
| FormulaLaws.AlgebraicEpsilonMonotoneInP | scripts/generate-plot.py:66-80 | at a fixed n a larger p never lowers the LDPC-style epsilon_L |
| FormulaLaws.EpsilonMonotoneInP | scripts/generate-plot.py:53-133 | for every code and fixed (n, k), a noisier device never has a smaller epsilon_L |
| FormulaLaws.YokedEpsilonOrder | scripts/generate-plot.py:95-133 | over the same inner distance, 2D-yoked epsilon_L <= 1D-yoked <= surface |
| FormulaLaws.YokedSuppression | scripts/generate-plot.py:95-133 | below 0.011, for the same (p, n, k), 2D-yoked epsilon_L <= 1D-yoked <= surface |
| FormulaLaws.InnerDistancePositive | scripts/generate-plot.py:55 | n >= k >= 1 gives d_in >= 1 |
| FormulaLaws.ReportedDistancePositive | scripts/generate-plot.py:53-133 | for n >= k >= 1 every lattice code reports a distance of at least 1 |
| FormulaLaws.LatticeEpsilonIncreasingInP | scripts/generate-plot.py:53-133 | at a distance >= 1 a larger p gives a strictly larger lattice epsilon_L, when pow grows strictly in its base |
| FormulaLaws.AlgebraicEpsilonIncreasingInP | scripts/generate-plot.py:66-80 | for n >= 1 a larger p gives a strictly larger LDPC-style epsilon_L |
| FormulaLaws.EpsilonIncreasingInP | scripts/generate-plot.py:53-133 | for every code and n >= k >= 1, a noisier device has a strictly larger epsilon_L |
| FormulaLaws.YokedExponentsIncrease | scripts/generate-plot.py:95-133 | for d_in >= 1: d / 2 < ceil(int(1.8 d_in) / 2) < ceil(int(3.2 d_in) / 2) |
| FormulaLaws.YokedEpsilonStrictOrder | scripts/generate-plot.py:95-133 | over the same inner distance d_in >= 1, 2D-yoked epsilon_L < 1D-yoked < surface |
| FormulaLaws.YokedSuppressionStrict | scripts/generate-plot.py:95-133 | below 0.011, for the same (p, n, k) with n >= k >= 1, 2D-yoked epsilon_L < 1D-yoked < surface |
| Search.LogDistance | scripts/generate-plot.py:161 | the log distance is finite exactly when epsilon_L and the target are positive, and then non-negative |
| Search.BestStep | scripts/generate-plot.py:163-165 | replacing best_result exactly when diff < min_diff keeps the first probe at minimal distance |
| Search.Run | scripts/generate-plot.py:158-173 | a successful run from a bracket with n_min <= n_max only narrows it: n_min <= n_min' <= n_max' <= n_max |
| Search.Search | scripts/generate-plot.py:153-173 | a successful search ends with 10 <= n_min <= n_max <= 1e10 |
| Search.SearchRaises | scripts/generate-plot.py:158-160 | the search raises the first midpoint's exception, and raises none when the formula never does |
| Search.FormulaSearchErrors | scripts/generate-plot.py:153-173 | searching a code's formula raises exactly for a lattice code with k <= 0, with ZeroDivisionError for k = 0 and ValueError otherwise |
| Search.SearchTraced | scripts/generate-plot.py:153-173 | 1 to 30 probes, each the evaluated midpoint of a bracket inside [10, 1e10], each bracket narrowed from the previous one by the epsilon_L > target test; the final bracket is on the chosen side of every probe; no probe but the last moved n_min past 1e9, and fewer than 30 probes means the last one did; the returned n is the last midpoint |
| Search.SearchClosest | scripts/generate-plot.py:155-165 | best_result is the first probe with the smallest finite log distance, and no probe is strictly closer; it is None exactly when no probe had a finite distance |
| Search.RunKeepsBest | scripts/generate-plot.py:163-165 | once a best result is kept, it is never dropped again |
| Search.SearchUnmatched | scripts/generate-plot.py:153-173 | for a positive target with no best result, all 30 steps run, n_min stays 10, and the last midpoint is at most 19 |
| Search.SearchRange | scripts/generate-plot.py:153-173 | the last midpoint and best_result's n lie in [10, 1e10] |
| Search.BracketSearch | scripts/generate-plot.py:153-173 | the loop returns exactly the specification `Search.Search`, or the formula's exception |
| Sampler.FormulaEchoes | scripts/generate-plot.py:53-133 | every formula result carries the n it was evaluated at |
| Sampler.GridPoint | scripts/generate-plot.py:145 | every grid point is positive when pow is |
| Sampler.Sweep | scripts/generate-plot.py:144-181 | on success the threshold is kept, p_values and n_values are only extended (the pop removes only the pending p), both by the same count, at most one pair per remaining grid index |
| Sampler.Generate | scripts/generate-plot.py:135-183 | an unknown code name raises KeyError; on success the code's threshold is returned with p_values and n_values of equal length, at most 50 |
| Sampler.GeneratePlotData | scripts/generate-plot.py:135-183 | the sampler loop returns exactly the specification `Sampler.Generate` |
| Sampler.PlotSampled | scripts/generate-plot.py:144-183 | on success: the code's threshold; p_values and n_values of equal length, at most 50; the i-th p is the i-th grid point and below the threshold; the i-th n is the search's best n (at most 1e9), or its last midpoint when it kept no best result; fewer than 50 pairs only when the next grid point reached the threshold or its search overflowed |
| Sampler.RecordedBounds | scripts/generate-plot.py:175-183 | a recorded n lies in [10, 1e10], and in [10, 1e9] for a positive target |
| Sampler.PlotBounds | scripts/generate-plot.py:175-183 | every recorded n lies in [10, 1e10], and in [10, 1e9] for a positive target |
| Sampler.SweepSucceeds | scripts/generate-plot.py:144-183 | when no search raises, the sampler does not raise |
| Sampler.PlotErrors | scripts/generate-plot.py:135-183 | an unknown code name raises KeyError; otherwise the sampler raises exactly when the first grid point is below the threshold and the code is a lattice code with k <= 0, with that exception |
| Sampler.GridEnds | scripts/generate-plot.py:145 | under the log10 laws the grid starts at 1e-6 and ends at 0.99 * threshold |
| Sampler.ExponentStep | scripts/generate-plot.py:145 | the grid exponent increases strictly with i |
| Sampler.GridStep | scripts/generate-plot.py:145 | under the laws the grid increases strictly |
| Sampler.GridIncreasing | scripts/generate-plot.py:145-148 | under the laws 1e-6 <= p_i < p_j <= 0.99 * threshold < threshold for i < j < 50 |
| Sampler.GridBelow | scripts/generate-plot.py:145-148 | under the laws no grid point reaches the threshold, so the `p >= threshold` exit never fires |
| Sampler.GridPrefix | scripts/generate-plot.py:144-150 | under the laws recorded p_values start at 1e-6 and increase strictly up to at most 0.99 * threshold |
| Sampler.StoppedOverflows | scripts/generate-plot.py:175-178 | under the laws a short run stopped only because the next search found a best n beyond 1e9 |

## Left out

- Plotting and I/O are not modelled: `create_plot`, matplotlib styling, the images
  directory, `savefig` and the `print` calls (scripts/generate-plot.py:185-254).
  They do not affect the estimates.
- Floating-point rounding is not modelled.
  - Reals are exact.
  - `x ** y` and `np.log10` are uninterpreted parameters, not the IEEE functions.
  - The conversions `int((n_min + n_max) / 2)`, `int(np.sqrt(n / k))`,
    `int(1.8 * d_in)` and `int(3.2 * d_in)` are modelled as exact integer floors.
    The doubles 1.8 and 3.2 lie slightly above their decimals, and every count
    stays below 2^53.
  - An underflowed or non-positive epsilon_L counts only through its infinite log
    distance.
- The display-only fields `name` and `color` of each registry entry are not
  modelled.
- The target epsilon_L argument that every formula ignores is dropped.
- The `try/except` around each code's plot is not modelled: it reports errors for
  the plotting loop only.
- The implied logical-qubit count for the LDPC-style codes and the log-scale axis
  mapper belong to the web application. The web application is not part of this
  model.
- Sampler.GridPrefix and Sampler.StoppedOverflows are stated for any lists and
  stop that `Sampler.PlotSampled` describes (`Sampler.Sampled` and
  `Sampler.StoppedAt`), not for a result of `Sampler.Generate` directly.
