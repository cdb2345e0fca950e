/**
 * The calibration search of app.py: a bracket (left, right) over beta that
 * shrinks by comparing the objective at two probes around its midpoint.
 * "Metrics at beta" (one full simulation run) is a parameter.
 */
module App {
  /** The pair (c1, c2) a simulation run reports for one beta. */
  type Metrics = real -> (real, real)

  /** func_to_min: the weighted objective c1 + 10·c2. */
  function FuncToMin(c: (real, real)): (r: real)
    ensures c.1 >= 0.0 ==> r >= c.0
    ensures c.0 >= 0.0 ==> r >= 10.0 * c.1
  {
    c.0 + 10.0 * c.1
  }

  /** The objective is monotone in both metrics, and one unit of c2 weighs as much as ten of c1. */
  lemma ObjectiveWeights(c: (real, real), d: (real, real), e: real)
    ensures c.0 <= d.0 && c.1 <= d.1 ==> FuncToMin(c) <= FuncToMin(d)
    ensures FuncToMin((c.0 + 10.0 * e, c.1)) == FuncToMin((c.0, c.1 + e))
  {
  }

  /** The two probes (x1, x2), symmetric about the midpoint and delta apart. */
  function Probes(left: real, right: real, delta: real): (p: (real, real))
    ensures p.1 - p.0 == delta
    ensures p.0 + p.1 == left + right
  {
    ((right + left - delta) / 2.0, (right + left + delta) / 2.0)
  }

  /** One iteration of the loop: if objective(x1) >= objective(x2) move left to x1, else right to x2. */
  function SearchStep(metrics: Metrics, left: real, right: real, delta: real): (r: (real, real))
    ensures var (x1, x2) := Probes(left, right, delta);
      if FuncToMin(metrics(x1)) >= FuncToMin(metrics(x2)) then r == (x1, right) else r == (left, x2)
    ensures r.1 - r.0 == (right - left + delta) / 2.0
    ensures 0.0 < delta < right - left ==> left <= r.0 < r.1 <= right
  {
    var (x1, x2) := Probes(left, right, delta);
    if FuncToMin(metrics(x1)) >= FuncToMin(metrics(x2)) then (x1, right) else (left, x2)
  }

  /** The desired final width eps = (r0 − l0)/20. */
  function Eps(l0: real, r0: real): (r: real)
    ensures r0 > l0 ==> 0.0 < r < r0 - l0
  {
    (r0 - l0) / 20.0
  }

  /** The probe spacing delta = (r0 − l0)/1000. */
  function Delta(l0: real, r0: real): (r: real)
    ensures r0 > l0 ==> 0.0 < r < Eps(l0, r0)
    ensures 50.0 * r == Eps(l0, r0)
  {
    (r0 - l0) / 1000.0
  }

  /** The bracket after k iterations from (l0, r0); eps and delta stay those of the initial range. */
  function Bracket(metrics: Metrics, l0: real, r0: real, k: nat): (real, real)
  {
    if k == 0 then (l0, r0)
    else
      var p := Bracket(metrics, l0, r0, k - 1);
      SearchStep(metrics, p.0, p.1, Delta(l0, r0))
  }

  /** v halved k times. */
  function Halved(v: real, k: nat): (r: real)
    ensures v > 0.0 ==> 0.0 < r <= v
  {
    if k == 0 then v else Halved(v, k - 1) / 2.0
  }

  /** The width minus delta halves with each iteration. */
  lemma {:induction false} BracketWidth(metrics: Metrics, l0: real, r0: real, k: nat)
    ensures var p := Bracket(metrics, l0, r0, k);
      p.1 - p.0 - Delta(l0, r0) == Halved(r0 - l0 - Delta(l0, r0), k)
  {
    if k > 0 {
      BracketWidth(metrics, l0, r0, k - 1);
      var p := Bracket(metrics, l0, r0, k - 1);
      assert Bracket(metrics, l0, r0, k) == SearchStep(metrics, p.0, p.1, Delta(l0, r0));
    }
  }

  /**
   * For r0 > l0 every bracket lies inside the previous one and inside
   * [l0, r0], and is strictly narrower than the previous one.
   */
  lemma {:induction false} BracketNested(metrics: Metrics, l0: real, r0: real, k: nat)
    requires r0 > l0
    ensures var p := Bracket(metrics, l0, r0, k);
      l0 <= p.0 < p.1 <= r0 && p.1 - p.0 > Delta(l0, r0)
    ensures k > 0 ==> var p, q := Bracket(metrics, l0, r0, k - 1), Bracket(metrics, l0, r0, k);
      p.0 <= q.0 && q.1 <= p.1 && q.1 - q.0 < p.1 - p.0
  {
    BracketWidth(metrics, l0, r0, k);
    if k > 0 {
      BracketNested(metrics, l0, r0, k - 1);
      var p := Bracket(metrics, l0, r0, k - 1);
      assert Bracket(metrics, l0, r0, k) == SearchStep(metrics, p.0, p.1, Delta(l0, r0));
    }
  }

  /** For r0 > l0 the loop guard right − left > eps holds for the first five brackets and fails for the sixth. */
  lemma FiveIterations(metrics: Metrics, l0: real, r0: real, k: nat)
    requires r0 > l0 && k <= 5
    ensures var p := Bracket(metrics, l0, r0, k);
      && (p.1 - p.0 > Eps(l0, r0) <==> k < 5)
      && (k == 5 ==> p.1 - p.0 == (r0 - l0) * 1031.0 / 32000.0)
  {
    BracketWidth(metrics, l0, r0, k);
    var v := r0 - l0 - Delta(l0, r0);
    assert Halved(v, 1) == v / 2.0;
    assert Halved(v, 2) == v / 4.0;
    assert Halved(v, 3) == v / 8.0;
    assert Halved(v, 4) == v / 16.0;
    assert Halved(v, 5) == v / 32.0;
  }

  /**
   * main, automatic mode: narrow (left, right) from the range (l0, r0) until
   * right − left <= eps, then run once more at the midpoint and report it.
   * For r0 > l0 the loop runs exactly five times.
   */
  method SearchBeta(l0: real, r0: real, metrics: Metrics)
    returns (left: real, right: real, beta: real, c: (real, real))
    ensures r0 <= l0 ==> left == l0 && right == r0
    ensures r0 > l0 ==> (left, right) == Bracket(metrics, l0, r0, 5)
    ensures r0 > l0 ==> l0 <= left < right <= r0 && right - left <= Eps(l0, r0)
    ensures r0 > l0 ==> right - left == (r0 - l0) * 1031.0 / 32000.0
    ensures beta == (left + right) / 2.0 && c == metrics(beta)
    ensures l0 <= r0 ==> l0 <= beta <= r0
  {
    left, right := l0, r0;
    var eps := (right - left) / 20.0;
    var delta := (right - left) / 1000.0;
    assert eps == Eps(l0, r0) && delta == Delta(l0, r0);
    ghost var k: nat := 0;
    while right - left > eps
      invariant r0 <= l0 ==> k == 0 && left == l0 && right == r0
      invariant r0 > l0 ==> k <= 5 && (left, right) == Bracket(metrics, l0, r0, k)
      decreases 5 - k
    {
      if r0 > l0 {
        FiveIterations(metrics, l0, r0, k);
      }
      ghost var prev := (left, right);
      var (x1, x2) := Probes(left, right, delta);
      var y1 := FuncToMin(metrics(x1));
      var y2 := FuncToMin(metrics(x2));
      if y1 >= y2 {
        left := x1;
      } else {
        right := x2;
      }
      assert (left, right) == SearchStep(metrics, prev.0, prev.1, delta);
      k := k + 1;
    }
    if r0 > l0 {
      FiveIterations(metrics, l0, r0, k);
      BracketNested(metrics, l0, r0, k);
    }
    beta := (left + right) / 2.0;
    c := metrics(beta);
  }
}
