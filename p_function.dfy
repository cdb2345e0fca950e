/** The closed-form quadratic p(w) = a·w·(b − w) of functions/p_function.py. */
module PFunction {

  /** The parameter list `[a, b]` of a PFunction object. */
  datatype Params = Params(a: real, b: real)

  /** PFunction.calculate: the quadratic with roots 0 and b, scaled by a. */
  function Calculate(p: Params, w: real): (r: real)
    ensures w == 0.0 ==> r == 0.0
    ensures w == p.b ==> r == 0.0
    ensures p.a == 0.0 ==> r == 0.0
    ensures p.a > 0.0 && 0.0 < w < p.b ==> r > 0.0
  {
    p.a * w * (p.b - w)
  }

  /** The quadratic is symmetric about b/2. */
  lemma Symmetric(p: Params, w: real)
    ensures Calculate(p, w) == Calculate(p, p.b - w)
  {
  }
}
