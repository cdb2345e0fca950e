/**
 * The composite "trapezoid" integrator of functions/integral.py, which
 * approximates the integral of f over [a, 1] with N sub-steps. Its step is
 * ((1 − a)/N)·2, twice the textbook width, and it clamps the lower limit.
 */
module Integral {

  /** The width of one step: `(b - a) / N*2` with b = 1, which parses as ((1 − a)/N)·2. */
  function Step(a: real, N: nat): (h: real)
    requires N > 0
    ensures 0.0 < a < 1.0 ==> h > 0.0
  {
    (1.0 - a) / N as real * 2.0
  }

  /** N steps cover twice the interval [a, 1]. */
  lemma StepsCoverTwice(a: real, N: nat)
    requires N > 0
    ensures Step(a, N) * N as real == 2.0 * (1.0 - a)
  {
  }

  /** The sum of f(a + i·h) over the interior indices 1 <= i < k. */
  function InteriorSum(f: real -> real, a: real, h: real, k: nat): real
  {
    if k <= 1 then 0.0 else InteriorSum(f, a, h, k - 1) + f(a + (k - 1) as real * h)
  }

  /** What Integral.calculate(a, N) returns for the integrand f. */
  function Trapezoid(f: real -> real, a: real, N: nat): real
    requires 0.0 < a < 1.0 ==> N > 0
  {
    if a <= 0.0 then 1.0
    else if a >= 1.0 then 0.0
    else
      var h := Step(a, N);
      (f(a) / 2.0 + InteriorSum(f, a, h, N) + f(1.0) / 2.0) * h
  }

  /**
   * Integral.calculate: the clamps a <= 0 (result 1) and a >= 1 (result 0),
   * then an accumulating loop over the N + 1 sample points.
   */
  method Calculate(f: real -> real, a: real, N: nat) returns (r: real)
    requires 0.0 < a < 1.0 ==> N > 0
    ensures a <= 0.0 ==> r == 1.0
    ensures a >= 1.0 ==> r == 0.0
    ensures r == Trapezoid(f, a, N)
  {
    var b := 1.0;
    if a <= 0.0 {
      return 1.0;
    }
    if a >= 1.0 {
      return 0.0;
    }
    var h := (b - a) / N as real * 2.0;
    assert h == Step(a, N);
    var s := SampleSum(f, a, h, N);
    r := s * h;
  }

  /**
   * The accumulating loop of Integral.calculate: half of f(a), then f at each
   * interior point a + i·h, then half of f(1).
   */
  method SampleSum(f: real -> real, a: real, h: real, N: nat) returns (s: real)
    requires N > 0
    ensures s == f(a) / 2.0 + InteriorSum(f, a, h, N) + f(1.0) / 2.0
  {
    var b := 1.0;
    s := 0.0;
    var x := a;
    s := s + f(x) / 2.0;
    for i := 1 to N
      invariant s == f(a) / 2.0 + InteriorSum(f, a, h, i)
    {
      x := a + i as real * h;
      assert InteriorSum(f, a, h, i + 1) == InteriorSum(f, a, h, i) + f(x);
      s := s + f(x);
    }
    x := b;
    s := s + f(x) / 2.0;
  }

  lemma {:induction false} InteriorSumOfConstant(f: real -> real, a: real, h: real, k: nat, c: real)
    requires k >= 1
    requires forall v :: f(v) == c
    ensures InteriorSum(f, a, h, k) == (k - 1) as real * c
  {
    if k > 1 {
      InteriorSumOfConstant(f, a, h, k - 1, c);
    }
  }

  /** For a constant integrand c the result is 2·c·(1 − a): twice the exact integral. */
  lemma ConstantIntegrand(f: real -> real, a: real, N: nat, c: real)
    requires 0.0 < a < 1.0 && N > 0
    requires forall v :: f(v) == c
    ensures Trapezoid(f, a, N) == 2.0 * c * (1.0 - a)
  {
    var h := Step(a, N);
    InteriorSumOfConstant(f, a, h, N, c);
    StepsCoverTwice(a, N);
    calc {
      Trapezoid(f, a, N);
      (c / 2.0 + (N - 1) as real * c + c / 2.0) * h;
      c * (h * N as real);
      2.0 * c * (1.0 - a);
    }
  }

  lemma {:induction false} InteriorSumNonnegative(f: real -> real, a: real, h: real, k: nat)
    requires forall v :: f(v) >= 0.0
    ensures InteriorSum(f, a, h, k) >= 0.0
  {
    if k > 1 {
      InteriorSumNonnegative(f, a, h, k - 1);
    }
  }

  /** A nonnegative integrand gives a nonnegative result. */
  lemma NonnegativeIntegrand(f: real -> real, a: real, N: nat)
    requires 0.0 < a < 1.0 ==> N > 0
    requires forall v :: f(v) >= 0.0
    ensures Trapezoid(f, a, N) >= 0.0
  {
    if 0.0 < a < 1.0 {
      InteriorSumNonnegative(f, a, Step(a, N), N);
      assert Step(a, N) > 0.0;
    }
  }

  /**
   * With the doubled step the last interior sample a + (N − 1)·h lies beyond
   * the upper limit 1 as soon as N > 2, so the integrand is evaluated outside [a, 1].
   */
  lemma SamplesOvershoot(a: real, N: nat)
    requires 0.0 < a < 1.0 && N > 2
    ensures a + (N - 1) as real * Step(a, N) > 1.0
  {
    var h := Step(a, N);
    var m := N as real - 3.0;
    StepsCoverTwice(a, N);
    assert h > 0.0;
    assert h * m >= 0.0 by {
      ProductNonnegative(h, m);
    }
    assert h * N as real == 3.0 * h + h * m;
    assert (N - 1) as real * h == h * N as real - h;
  }

  lemma ProductNonnegative(u: real, v: real)
    requires u >= 0.0 && v >= 0.0
    ensures u * v >= 0.0
  {
  }
}
