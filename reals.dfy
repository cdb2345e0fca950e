/** Small real-number helpers shared by the modules of the model. */
module Reals {

  /** Absolute value, as numpy.abs on a scalar. */
  function Abs(v: real): (r: real)
    ensures r >= 0.0
    ensures r == v || r == -v
  {
    if v < 0.0 then -v else v
  }
}
