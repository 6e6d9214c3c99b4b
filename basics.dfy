/** Small value helpers shared by the portfolio modules. */
module Basics {

  /** An optional input field: None stands for a key missing from the source's mapping. */
  datatype Option<T> = None | Some(value: T)
  {
    /** The value, or `default` when the key is missing (Python's `dict.get(key, default)`). */
    function GetOr(default: T): T
    {
      match this
      case Some(v) => v
      case None => default
    }
  }

  /** Python's `abs` on a float, taken over the reals. */
  function Abs(x: real): (r: real)
    ensures r >= 0.0 && (r == x || r == -x)
  {
    if x < 0.0 then -x else x
  }

  /** Python's two-argument `min`, taken over the reals. */
  function Min(a: real, b: real): (r: real)
    ensures r <= a && r <= b && (r == a || r == b)
  {
    if a <= b then a else b
  }
}
