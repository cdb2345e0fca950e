/**
 * The fixed-grid classical Runge-Kutta sweep of Solver.py for a 2-state system
 * (x, y), the two right-hand sides built inside `solve`, and the metrics c1, c2.
 */
module Solver {
  import opened Reals
  import FFunction
  import Integral

  /** A right-hand side f(t, x, y). */
  type Rhs = (real, real, real) -> real

  /**
   * One RK4 step from (x, y) at time ti to time ti1: each stage evaluates f
   * and g at the same combined (x, y) sub-stage point.
   */
  function RK4Step(f: Rhs, g: Rhs, ti: real, ti1: real, x: real, y: real): (r: (real, real))
    ensures ti1 == ti ==> r == (x, y)
  {
    var h := ti1 - ti;
    var k0 := f(ti, x, y) * h;
    var q0 := g(ti, x, y) * h;
    var k1 := f(ti + h / 2.0, x + k0 / 2.0, y + q0 / 2.0) * h;
    var q1 := g(ti + h / 2.0, x + k0 / 2.0, y + q0 / 2.0) * h;
    var k2 := f(ti + h / 2.0, x + k1 / 2.0, y + q1 / 2.0) * h;
    var q2 := g(ti + h / 2.0, x + k1 / 2.0, y + q1 / 2.0) * h;
    var k3 := f(ti + h, x + k2, y + q2) * h;
    var q3 := g(ti + h, x + k2, y + q2) * h;
    assert h == 0.0 ==> k0 == q0 == k1 == q1 == k2 == q2 == k3 == q3 == 0.0;
    (x + (k0 + 2.0 * k1 + 2.0 * k2 + k3) / 6.0, y + (q0 + 2.0 * q1 + 2.0 * q2 + q3) / 6.0)
  }

  /** The state (x[i], y[i]) that the sweep reaches at grid point i. */
  function StateAt(f: Rhs, g: Rhs, t: seq<real>, x0: real, y0: real, i: nat): (real, real)
    requires i < |t|
  {
    if i == 0 then (x0, y0)
    else
      var p := StateAt(f, g, t, x0, y0, i - 1);
      RK4Step(f, g, t[i - 1], t[i], p.0, p.1)
  }

  /** traj[j + 1] is one RK4 step from traj[j], for every step the prefix covers. */
  ghost predicate Follows(f: Rhs, g: Rhs, t: seq<real>, traj: seq<(real, real)>)
    requires |traj| <= |t|
  {
    forall j :: 0 <= j < |traj| - 1 ==> traj[j + 1] == RK4Step(f, g, t[j], t[j + 1], traj[j].0, traj[j].1)
  }

  lemma {:induction false} FollowsIsStateAt(f: Rhs, g: Rhs, t: seq<real>, x0: real, y0: real, traj: seq<(real, real)>, j: nat)
    requires 0 < |traj| <= |t| && traj[0] == (x0, y0)
    requires Follows(f, g, t, traj)
    requires j < |traj|
    ensures traj[j] == StateAt(f, g, t, x0, y0, j)
  {
    if j > 0 {
      FollowsIsStateAt(f, g, t, x0, y0, traj, j - 1);
    }
  }

  /**
   * RungeKutta: two freshly allocated arrays of the grid's length, starting at
   * (x0, y0), filled one step at a time.
   */
  method RungeKutta(f: Rhs, g: Rhs, t: seq<real>, x0: real, y0: real) returns (x: array<real>, y: array<real>)
    requires |t| >= 1
    ensures fresh(x) && fresh(y)
    ensures x.Length == |t| && y.Length == |t|
    ensures x[0] == x0 && y[0] == y0
    ensures forall i :: 0 <= i < |t| ==> (x[i], y[i]) == StateAt(f, g, t, x0, y0, i)
  {
    x := new real[|t|];
    x[0] := x0;
    y := new real[|t|];
    y[0] := y0;
    ghost var traj := [(x0, y0)];
    for i := 0 to |t| - 1
      invariant |traj| == i + 1 && traj[0] == (x0, y0)
      invariant Follows(f, g, t, traj)
      invariant forall j :: 0 <= j <= i ==> (x[j], y[j]) == traj[j]
    {
      var next := RK4Step(f, g, t[i], t[i + 1], x[i], y[i]);
      x[i + 1] := next.0;
      y[i + 1] := next.1;
      traj := traj + [next];
    }
    forall i | 0 <= i < |t|
      ensures (x[i], y[i]) == StateAt(f, g, t, x0, y0, i)
    {
      FollowsIsStateAt(f, g, t, x0, y0, traj, i);
    }
  }

  /** With f ≡ 0 and g ≡ 0 the trajectory stays at (x0, y0). */
  lemma {:induction false} ZeroFieldIsConstant(f: Rhs, g: Rhs, t: seq<real>, x0: real, y0: real, i: nat)
    requires i < |t|
    requires forall s, u, v :: f(s, u, v) == 0.0
    requires forall s, u, v :: g(s, u, v) == 0.0
    ensures StateAt(f, g, t, x0, y0, i) == (x0, y0)
  {
    if i > 0 {
      ZeroFieldIsConstant(f, g, t, x0, y0, i - 1);
    }
  }

  /** A constant x-derivative c advances x by exactly c·h in one step. */
  lemma ConstantDriftStep(f: Rhs, g: Rhs, ti: real, ti1: real, x: real, y: real, c: real)
    requires forall s, u, v :: f(s, u, v) == c
    ensures RK4Step(f, g, ti, ti1, x, y).0 == x + c * (ti1 - ti)
  {
  }

  lemma ConstantDriftAt(f: Rhs, g: Rhs, t: seq<real>, x0: real, y0: real, c: real, i: nat)
    requires 0 < i < |t|
    requires forall s, u, v :: f(s, u, v) == c
    ensures StateAt(f, g, t, x0, y0, i).0 == StateAt(f, g, t, x0, y0, i - 1).0 + c * (t[i] - t[i - 1])
  {
    var p := StateAt(f, g, t, x0, y0, i - 1);
    ConstantDriftStep(f, g, t[i - 1], t[i], p.0, p.1, c);
  }

  lemma Telescope(c: real, a: real, b: real, d: real)
    ensures c * (b - a) + c * (d - b) == c * (d - a)
  {
  }

  /** Values that advance by c·(t[j] − t[j−1]) at every step have advanced by c·(t[i] − t[0]) at i. */
  lemma {:induction false} Accumulate(xs: seq<real>, t: seq<real>, c: real, i: nat)
    requires |xs| <= |t| && i < |xs|
    requires forall j :: 0 < j < |xs| ==> xs[j] == xs[j - 1] + c * (t[j] - t[j - 1])
    ensures xs[i] == xs[0] + c * (t[i] - t[0])
  {
    if i > 0 {
      Accumulate(xs, t, c, i - 1);
      Telescope(c, t[0], t[i - 1], t[i]);
    }
  }

  /** With a constant x-derivative c, x[i] = x0 + c·(t[i] − t[0]). */
  lemma ConstantDrift(f: Rhs, g: Rhs, t: seq<real>, x0: real, y0: real, c: real, i: nat)
    requires i < |t|
    requires forall s, u, v :: f(s, u, v) == c
    ensures StateAt(f, g, t, x0, y0, i).0 == x0 + c * (t[i] - t[0])
  {
    var xs := seq(i + 1, j requires 0 <= j <= i => StateAt(f, g, t, x0, y0, j).0);
    forall j | 0 < j < |xs|
      ensures xs[j] == xs[j - 1] + c * (t[j] - t[j - 1])
    {
      ConstantDriftAt(f, g, t, x0, y0, c, j);
    }
    Accumulate(xs, t, c, i);
  }

  /** The ideal grid 0, T/N, ..., T that `np.arange(0, T + T/N, T/N)` aims at. */
  function TimeGrid(T: real, N: nat): (t: seq<real>)
    requires N > 0
    ensures |t| == N + 1
    ensures t[0] == 0.0 && t[N] == T
    ensures forall k :: 0 <= k < N ==> t[k + 1] - t[k] == T / N as real
  {
    var t := seq(N + 1, k => k as real * (T / N as real));
    GridFacts(T, N, t);
    t
  }

  /** N steps of size T/N reach T, and neighbouring grid points are one step apart. */
  lemma GridFacts(T: real, N: nat, t: seq<real>)
    requires N > 0 && |t| == N + 1
    requires forall k :: 0 <= k <= N ==> t[k] == k as real * (T / N as real)
    ensures t[0] == 0.0 && t[N] == T
    ensures forall k :: 0 <= k < N ==> t[k + 1] - t[k] == T / N as real
  {
    var q := T / N as real;
    assert N as real * q == T;
    forall k | 0 <= k < N
      ensures t[k + 1] - t[k] == q
    {
      assert (k + 1) as real * q == k as real * q + q;
    }
  }

  /**
   * The finite-difference estimate of z'(t) used by the inner f_function: a
   * forward difference with step 1/(10N), and a backward one when t == T.
   */
  function ZDerivative(z: real -> real, T: real, N: nat, t: real): (r: real)
    requires N > 0
    ensures var e := 1.0 / (N as real * 10.0);
      r * e == if t == T then z(t) - z(t - e) else z(t + e) - z(t)
  {
    var e := 1.0 / (N as real * 10.0);
    if t == T then (z(t) - z(t - e)) * N as real * 10.0
    else (z(t + e) - z(t)) * N as real * 10.0
  }

  /** Both difference quotients are exact on a linear z(t) = k·t + m. */
  lemma ZDerivativeOfLinear(z: real -> real, k: real, m: real, T: real, N: nat, t: real)
    requires N > 0
    requires forall s :: z(s) == k * s + m
    ensures ZDerivative(z, T, N, t) == k
  {
    var e := 1.0 / (N as real * 10.0);
    assert e * (N as real * 10.0) == 1.0;
    if t == T {
      assert z(t) - z(t - e) == k * e;
    } else {
      assert z(t + e) - z(t) == k * e;
    }
  }

  /** The inner f_function(t, x, y) = z'(t)·u(y); it ignores x. */
  function XRhs(z: real -> real, u: real -> real, T: real, N: nat): (f: Rhs)
    requires N > 0
    ensures forall s, v, x, x' :: f(s, x, v) == f(s, x', v)
  {
    (s, x, v) => ZDerivative(z, T, N, s) * u(v)
  }

  /** The inner g_function(t, x, y) = f_func.calculate(t, x); it ignores y. */
  function YRhs(fp: FFunction.Params): (g: Rhs)
    ensures forall s, x, v :: g(s, x, v) == FFunction.Calculate(fp, s, x)
  {
    (s, x, v) => FFunction.Calculate(fp, s, x)
  }

  /** A metric value: a real, or the inf/nan that a division by zero gives in numpy. */
  datatype Metric = Finite(value: real) | NonFinite

  /** c2 = |x_N − s(T)| / s(T): the terminal tracking error relative to s(T). */
  function C2(xN: real, sT: real): (r: Metric)
    ensures r.NonFinite? <==> sT == 0.0
    ensures r.Finite? ==> r.value * sT == Abs(xN - sT)
    ensures r.Finite? ==> (r.value == 0.0 <==> xN == sT)
    ensures sT > 0.0 ==> r.Finite? && r.value >= 0.0
  {
    if sT == 0.0 then NonFinite else Finite(Abs(xN - sT) / sT)
  }

  /** c1 = 1 − I/(x_N − x_0), from the value I of the outer integral. */
  function C1(xN: real, x0: real, I: real): (r: Metric)
    ensures r.NonFinite? <==> xN == x0
    ensures r.Finite? ==> (1.0 - r.value) * (xN - x0) == I
  {
    if xN - x0 == 0.0 then NonFinite else Finite(1.0 - I / (xN - x0))
  }

  /**
   * solve: the RK4 sweep over the grid with the two inner right-hand sides,
   * then the metrics. The outer integral of c1 is taken from a = 0, so the
   * integrator's clamp returns 1 without evaluating its integrand, and c1 is
   * C1 with I = 1, that is 1 − 1/(x_N − x_0).
   */
  method Solve(x0: real, y0: real, beta: real, T: real, N: nat,
               z: real -> real, s: real -> real, u: real -> real, fp: FFunction.Params)
    returns (c1: Metric, c2: Metric)
    requires T != 0.0 && N > 0
    ensures var xN := StateAt(XRhs(z, u, T, N), YRhs(fp), TimeGrid(T, N), x0, y0, N).0;
      && c2 == C2(xN, s(T))
      && c1 == C1(xN, x0, 1.0)
  {
    var tRange := TimeGrid(T, N);
    var xAns, yAns := RungeKutta(XRhs(z, u, T, N), YRhs(fp), tRange, x0, y0);
    assert xAns[N] == StateAt(XRhs(z, u, T, N), YRhs(fp), tRange, x0, y0, N).0;
    c2 := C2(xAns[xAns.Length - 1], s(T));
    // The integrand of Solver.py:58-70 is never evaluated: the lower limit is 0.
    var c1Integral := Integral.Calculate(_ => 0.0, 0.0, 10000);
    c1 := C1(xAns[xAns.Length - 1], xAns[0], c1Integral);
  }
}
