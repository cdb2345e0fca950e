/** The mean-reversion drive beta·(s(t) − x) of functions/f_function.py. */
module FFunction {

  /** The parameter list `[beta, s, z, N]` of an FFunction object. */
  datatype Params = Params(beta: real, s: real -> real, z: real -> real, N: int)

  /** FFunction.calculate(t, x): pulls x towards the target curve s at rate beta. */
  function Calculate(p: Params, t: real, x: real): (r: real)
    ensures x == p.s(t) ==> r == 0.0
    ensures p.beta == 0.0 ==> r == 0.0
    ensures p.beta > 0.0 && x < p.s(t) ==> r > 0.0
    ensures p.beta > 0.0 && x > p.s(t) ==> r < 0.0
  {
    p.beta * (p.s(t) - x)
  }

  /** The result depends only on beta and s: the entries z and N are never used. */
  lemma IgnoresZAndN(p: Params, z': real -> real, N': int, t: real, x: real)
    ensures Calculate(p, t, x) == Calculate(Params(p.beta, p.s, z', N'), t, x)
  {
  }
}
