# NumMethods calibration engine, modelled in Dafny

NumMethods calibrates one parameter, beta, of a two-state ODE model. Each
run fits natural cubic splines to tabulated functions and integrates the
system x' = z'(t)·u(y), y' = beta·(s(t) − x) with a fixed-step
Runge–Kutta (RK4) sweep. It then scores the trajectory with two metrics:
c2, the relative terminal tracking error, and c1, derived from an
integral. An outer bracket search narrows beta by comparing the
objective c1 + 10·c2 at two probes around the bracket midpoint.

This project models that engine over exact `real` arithmetic and proves
properties of it. There is one Dafny module per source file:

| module | file | source |
|---|---|---|
| `PFunction` | p_function.dfy | the quadratic p(w) = a·w·(b − w) |
| `FFunction` | f_function.dfy | the drive beta·(s(t) − x) |
| `Integral` | integral.dfy | the composite trapezoid integrator, with its clamps and its doubled step |
| `InterpolatedFunction` | interpolated_function.dfy | the natural cubic spline: filling the tridiagonal system in place, Cramer's rule, deriving the coefficients into the object's fields, evaluating through `bisect_left` |
| `Solver` | solver.dfy | the RK4 sweep over arrays, the two inner right-hand sides, the time grid, and the metrics c1 and c2 |
| `App` | app.dfy | the objective and the bracket search loop |
| `Reals` | reals.dfy | `Abs` |

The models follow the source's own form:
- The loops are methods whose contracts tie the result to a specification function: `Integral.Calculate` to `Integral.Trapezoid`, `Solver.RungeKutta` to `Solver.StateAt`, and `App.SearchBeta` to `App.Bracket`.
- `fill_in_matrix` writes an `array2` and an `array`.
- `getSpline` updates the sequence fields of a class.
- The pure formulas are functions.

The determinant (`numpy.linalg.det`), the tabulated functions s, z and u, and a full simulation run's metrics are parameters of the model.

Behaviour of the code that the model keeps:
- The spline needs at least 4 samples (n ≥ 3). With n = 2, `A[0][1]` is out of range for the 1×1 matrix.
- getSpline only divides by the knot widths, so the model requires nonzero widths. Strictly increasing knots are assumed only by the knot round-trip and by diagonal dominance.
- The probe spacing delta is computed once from the initial range. For r0 > l0 the search runs exactly five iterations (`App.FiveIterations`).
- On a singular system, kramer returns the 11-character sentinel string "Решений нет". getSpline then raises an exception: an IndexError at line 64 when n ≥ 13, and a TypeError at line 68 when n ≤ 12. The model returns `false` (or `None`) at that point.

## Model

| member | source | states |
|---|---|---|
| PFunction.Calculate | project/functions/p_function.py:6-7 | p(0) = p(b) = 0; p is identically 0 when a = 0; p(w) > 0 for a > 0 and 0 < w < b |
| PFunction.Symmetric | project/functions/p_function.py:7 | p(w) = p(b − w) |
| FFunction.Calculate | project/functions/f_function.py:6-12 | the drive is 0 when x = s(t) or beta = 0; for beta > 0 it is positive below s(t) and negative above it |
| FFunction.IgnoresZAndN | project/functions/f_function.py:11-12 | the result does not depend on the z and N parameters (N is read but unused) |
| Integral.Step | project/functions/integral.py:17 | the step ((1 − a)/N)·2 is positive for 0 < a < 1 |
| Integral.StepsCoverTwice | project/functions/integral.py:17 | `(b - a) / N*2` is ((1 − a)/N)·2, so N steps cover twice the interval: h·N = 2(1 − a) |
| Integral.Calculate | project/functions/integral.py:11-26 | equal to `Integral.Trapezoid`: 1 for a ≤ 0 and 0 for a ≥ 1 without sampling; otherwise (f(a)/2 + Σ_{i=1}^{N−1} f(a + i·h) + f(1)/2)·h with the doubled step |
| Integral.SampleSum | project/functions/integral.py:18-25 | the accumulated sum is f(a)/2 + Σ_{i=1}^{N−1} f(a + i·h) + f(1)/2 |
| Integral.ConstantIntegrand | project/functions/integral.py:17-26 | a constant integrand c gives 2c(1 − a) for 0 < a < 1 |
| Integral.NonnegativeIntegrand | project/functions/integral.py:13-26 | a nonnegative integrand gives a nonnegative result |
| Integral.SamplesOvershoot | project/functions/integral.py:17-23 | with N > 2 the last interior sample a + (N − 1)·h lies beyond the upper limit 1 |
| Solver.RK4Step | project/Solver.py:12-27 | one RK4 step with all four stages shared by f and g; a zero-length step (t[i+1] = t[i]) leaves (x, y) unchanged |
| Solver.RungeKutta | project/Solver.py:5-29 | two fresh arrays of length len(t), x[0] = x_0, y[0] = y_0, and every (x[i], y[i]) is the i-th RK4 state of the step recurrence, with both f and g evaluated at the same sub-stage points |
| Solver.FollowsIsStateAt | project/Solver.py:11-27 | a trajectory built step by step with the RK4 update is the RK4 state at every index |
| Solver.ZeroFieldIsConstant | project/Solver.py:11-27 | with f ≡ 0 and g ≡ 0 the trajectory stays at (x_0, y_0) |
| Solver.ConstantDriftStep | project/Solver.py:12-26 | with f ≡ c one step advances x by exactly c·h |
| Solver.ConstantDrift | project/Solver.py:11-26 | with f ≡ c, x at index i is x_0 + c·(t[i] − t[0]) |
| Solver.TimeGrid | project/Solver.py:33 | the grid has N + 1 points from 0 to T with uniform step T/N |
| Solver.ZDerivative | project/Solver.py:36-39 | the estimate times the step e = 1/(10N) is the increment of z over [t − e, t] at t = T and over [t, t + e] elsewhere |
| Solver.ZDerivativeOfLinear | project/Solver.py:35-39 | the backward difference at t = T and the forward difference elsewhere are both exact for linear z |
| Solver.XRhs | project/Solver.py:35-40 | the inner f_function is z'(t)·u(y) and does not depend on x |
| Solver.YRhs | project/Solver.py:42-43 | the inner g_function(t, x, y) is f_func.calculate(t, x) and ignores y |
| Solver.C2 | project/Solver.py:47 | c2 is non-finite exactly when s(T) = 0; otherwise c2·s(T) = \|x_N − s(T)\|, c2 = 0 exactly when x_N = s(T), and c2 ≥ 0 when s(T) > 0 |
| Solver.C1 | project/Solver.py:73 | c1 is non-finite exactly when x_N = x_0; otherwise (1 − c1)·(x_N − x_0) = I |
| Solver.Solve | project/Solver.py:32-74 | c2 = C2(x_N, s(T)) and c1 = C1(x_N, x_0, 1): the integral from a = 0 hits the clamp and returns 1, so (1 − c1)·(x_N − x_0) = 1 whenever x_N ≠ x_0; x_N is the last RK4 state on the time grid with the two inner right-hand sides |
| App.FuncToMin | project/app.py:15-16 | c1 + 10·c2 is at least c1 when c2 ≥ 0, and at least 10·c2 when c1 ≥ 0 |
| App.ObjectiveWeights | project/app.py:15-16 | func_to_min is monotone in both metrics and weighs c2 ten times c1 |
| App.Probes | project/app.py:55-56 | the probes are symmetric about the bracket midpoint, with x2 − x1 = delta |
| App.SearchStep | project/app.py:55-62 | if objective(x1) ≥ objective(x2) only left moves (to x1), otherwise only right moves (to x2); the new width is (w + delta)/2, nested in the old bracket when 0 < delta < w |
| App.Eps | project/app.py:51 | for r0 > l0, eps = (r0 − l0)/20 lies strictly between 0 and the initial width |
| App.Delta | project/app.py:52 | for r0 > l0, delta = (r0 − l0)/1000 lies strictly between 0 and eps, and 50·delta = eps |
| App.BracketWidth | project/app.py:51-62 | with eps and delta fixed from the initial range, width − delta halves with every iteration |
| App.BracketNested | project/app.py:50-62 | for r0 > l0, every bracket satisfies l0 ≤ left < right ≤ r0 and width > delta; left never decreases, right never increases, and the width strictly shrinks |
| App.FiveIterations | project/app.py:51-53 | for r0 > l0 the guard right − left > eps holds for the first five brackets and fails for the sixth; the final width is (r0 − l0)·1031/32000 |
| App.SearchBeta | project/app.py:50-63 | the loop leaves (l0, r0) untouched when r0 ≤ l0; otherwise it ends at the fifth bracket, inside [l0, r0] and no wider than eps; beta is the midpoint, lies in [l0, r0], and the metrics are taken there |
| InterpolatedFunction.BisectLeft | project/functions/interpolated_function.py:93 | on sorted knots, every knot before the result is < v, and the knot at the result (if any) is ≥ v |
| InterpolatedFunction.BisectLeftAtKnot | project/functions/interpolated_function.py:93 | on strictly increasing knots, each knot is found at its own index |
| InterpolatedFunction.Cubic | project/functions/interpolated_function.py:96 | the piece a + b·dx + c·dx² + d·dx³ equals a at dx = 0, and everywhere when b = c = d = 0 |
| InterpolatedFunction.Widths | project/functions/interpolated_function.py:46 | n widths, h[i] = x[i+1] − x[i] (the list comprehension's h[i−1] = x[i] − x[i−1]) |
| InterpolatedFunction.RhsEntry | project/functions/interpolated_function.py:18-26 | the right-hand side of row i is 0 exactly when the segments on either side of knot i+1 have the same slope |
| InterpolatedFunction.FillInteriorRows | project/functions/interpolated_function.py:11-18 | rows 1..n−3 get h[i], 2(h[i] + h[i+1]) and h[i+1] on the three diagonals, and the right-hand side 3((y[i+2] − y[i+1])/h[i+1] − (y[i+1] − y[i])/h[i]); nothing off the diagonals changes |
| InterpolatedFunction.FillRow | project/functions/interpolated_function.py:12-16 | row i gets h[i], 2(h[i] + h[i+1]) and h[i+1] at columns i−1, i and i+1; no other entry changes |
| InterpolatedFunction.FillEndRows | project/functions/interpolated_function.py:20-25 | row 0 gets 2(h[0] + h[1]) and h[1] in its first two columns, row n−2 gets h[n−2] and 2(h[n−2] + h[n−1]) in its last two; no other entry changes |
| InterpolatedFunction.FillInMatrix | project/functions/interpolated_function.py:10-28 | all n − 1 rows, including row 0 (diagonal and super-diagonal only) and row n − 2 (sub-diagonal and diagonal only), hold the tridiagonal system; every entry with \|i − j\| > 1 keeps its value; requires n ≥ 3 |
| InterpolatedFunction.FilledMatrixIsSystem | project/functions/interpolated_function.py:20-26 | starting from np.zeros, the filled array is exactly the system matrix |
| InterpolatedFunction.SystemRow | project/functions/interpolated_function.py:11-26 | row i of the matrix times v reduces to h[i]·v[i−1] + 2(h[i] + h[i+1])·v[i] + h[i+1]·v[i+1] |
| InterpolatedFunction.SolvesSystemByRows | project/functions/interpolated_function.py:11-26 | A·ans = rhs holds exactly when every banded row equation holds |
| InterpolatedFunction.DiagonallyDominant | project/functions/interpolated_function.py:14 | with strictly increasing knots, every row's diagonal entry strictly exceeds the sum of its absolute off-diagonal entries |
| InterpolatedFunction.Transpose | project/functions/interpolated_function.py:31 | `zip(*m)` on a square matrix: t[j][i] = m[i][j] |
| InterpolatedFunction.Kramer | project/functions/interpolated_function.py:30-40 | returns the sentinel exactly when the determinant is 0; otherwise one entry per row, entry i being det of the transpose with row i replaced by b, over det of the transpose (the transpose is what `zip(*m)` builds) |
| InterpolatedFunction.SolveSystem | project/functions/interpolated_function.py:56-62 | the zero arrays, filled and solved, give the sentinel exactly when the system is singular, and otherwise Cramer's solution of the system |
| InterpolatedFunction.DCoefficient | project/functions/interpolated_function.py:68 | d[i]·3h[i−1] = c[i] − c[i−1] |
| InterpolatedFunction.BCoefficient | project/functions/interpolated_function.py:69 | with c[i] = c[i−1] = 0, b[i] is the secant slope: b[i]·h[i−1] = y[i] − y[i−1] |
| InterpolatedFunction.InterpolatedFunction.DeriveCoefficients | project/functions/interpolated_function.py:64-69 | c[0] = c[n] = 0 and c[i] = ans[i−1]; d[i] = (c[i] − c[i−1])/(3h[i−1]) and b[i] = (y[i] − y[i−1])/h[i−1] + h[i−1](2c[i] + c[i−1])/3 for 1 ≤ i ≤ n; b[0] = d[0] = 0 |
| InterpolatedFunction.InterpolatedFunction.GetSpline | project/functions/interpolated_function.py:42-72 | x = xs and a = ys, and Valid() holds afterwards; it succeeds exactly when the determinant is nonzero; then every list has length n + 1 and b, c, d are the coefficients derived from Cramer's solution; on failure b, c and d are the n + 1 zeros of lines 51-53 and f is unchanged |
| InterpolatedFunction.InterpolatedFunction.CalculateInterpolationCoeffs | project/functions/interpolated_function.py:74-79 | the in-memory points are copied into knots and values and passed to getSpline, with the same outcome: success exactly when the determinant is nonzero, Cramer's coefficients on success, zero coefficients and an unchanged f on failure, and Valid() in both cases |
| InterpolatedFunction.InterpolatedFunction.Calculate | project/functions/interpolated_function.py:91-96 | 0 beyond the last knot; otherwise the cubic of the first knot ≥ v, at dx = v − that knot |
| InterpolatedFunction.InterpolatedFunction.KnotRoundTrip | project/functions/interpolated_function.py:93-96 | on strictly increasing knots, calculate(x[i]) = a[i] = y[i] |
| InterpolatedFunction.InterpolatedFunction.SegmentOf | project/functions/interpolated_function.py:93-96 | on (x[k−1], x[k]] the spline is the cubic stored at knot k |
| InterpolatedFunction.InterpolatedFunction.LeftOfFirstKnot | project/functions/interpolated_function.py:51-53 | at or left of x[0] the spline is the constant y[0], because b[0] = c[0] = d[0] = 0 |
| InterpolatedFunction.ValueContinuity | project/functions/interpolated_function.py:68-69 | whatever the solved c's are, the cubic of knot k at dx = −(x[k] − x[k−1]) equals y[k−1] |
| InterpolatedFunction.CurvatureContinuity | project/functions/interpolated_function.py:68 | whatever the solved c's are, the second derivative of the cubic of knot k at x[k−1] equals that of the cubic of knot k−1 there |
| InterpolatedFunction.NaturalBoundary | project/functions/interpolated_function.py:65-68 | the second derivative is 0 at x[0] and at x[n] |
| InterpolatedFunction.SlopeContinuity | project/functions/interpolated_function.py:64-69 | when ans solves the system, the first derivative of the cubic of knot k+1 at x[k] equals b[k] |
| InterpolatedFunction.New | project/functions/interpolated_function.py:6-7 | constructing from in-memory points succeeds exactly when the system is nonsingular, and yields a fresh object with those knots, values (a and f) and coefficients |

## Left out

- Files and the console are not modelled: all `tabulate` methods, the file-reading branch of `calculate_interpolation_coeffs`, `print_solution`, and the `print` calls. `Integral.tabulate` is left out too; it would fail anyway, since it passes a float as N to `range`.
- The PyQt5 form and the plotting in interface.py are not modelled.
- s_function.py and z_function.py (`np.sin`/`np.cos` wrappers) are not modelled. s, z and u are parameters of `Solver.Solve`.
- Solver.Solve: `u` stands for `u_func.calculate`. The caller (app.py:36-40) passes the integral of the interpolated p as `u_func`, and that composition is left to the caller.
- `numpy.linalg.det` is a parameter `det`. Nothing is assumed about it.
- InterpolatedFunction.SlopeContinuity assumes the c's solve the system. That Cramer's rule with a real determinant produces such a solution is not proved.
- The bodies of `C1Integrand` and `C1Integrand2` are not modelled. They are never evaluated, because the integral is taken from a = 0. As written they would fail (no `self`; a float index). `Solver.Solve` passes a stand-in integrand that the clamp never evaluates.
- InterpolatedFunction.InterpolatedFunction.GetSpline: nonzero knot widths are required. On a zero width, `fill_in_matrix` raises ZeroDivisionError at line 18, 22 or 26 when the points are Python floats (the file branch), and produces inf/nan when they are numpy scalars. Neither outcome is modelled; the same requires is on CalculateInterpolationCoeffs and New.
- Solver.Solve: T ≠ 0 and N > 0 are required. The source fails on both: with N = 0, `T/N` raises ZeroDivisionError at Solver.py:33, and with T = 0, `np.arange` gets a zero step and raises there (manual_mode hits the same error earlier: at app.py:24 in the two tabulating modes, Ручной and Авто, and at app.py:32 in the file modes). Neither error path is modelled.
- Solver.Solve: the `p_func` argument is unused by the source's effective computation and does not appear. `beta` enters only through `fp`.
- `manual_mode` is not modelled. A simulation run at a given beta is the parameter `metrics` of `App.SearchBeta`.
- Floating point is not modelled. The model does not capture:
  - rounding of the `np.arange` grid, whose length can be off by one (`Solver.TimeGrid` is the ideal grid k·T/N);
  - RK4 truncation error and trapezoid accuracy;
  - NaN/Inf propagation beyond the `Metric` NonFinite case.
  - App.SearchBeta: a NaN objective in the comparison is not modelled either.
- Integral.Calculate: N is a `nat`, and N > 0 is required when 0 < a < 1. The source raises ZeroDivisionError at integral.py:17 for N = 0 and accepts a negative N. Neither case is modelled, and no caller in the model passes one (solve uses the default N = 10000).
- Integral.Calculate does not state that the integrand is called exactly N + 1 times. Integrands are pure functions, so the number of calls is not observable.
- Solver.RungeKutta does not state the contents of the `np.zeros` arrays, which are overwritten before they are read.
- InterpolatedFunction.InterpolatedFunction.GetSpline: the exception after the sentinel string is modelled as returning `false`. That is an IndexError at line 64 for n ≥ 13 and a TypeError at line 68 for smaller n. The object then holds the knots and zero coefficients, and no exception is raised.
- The `float(...)` conversions of the widths and the Python `int` zeros of the coefficient lists are all just `real`.
