/** Small value wrappers shared by every module of the model. */
module Basics {

  /** Python's `None` / a present value. */
  datatype Option<+T> = None | Some(value: T)

  /** A value or a raised exception of kind E. */
  datatype Result<+T, +E> = Ok(value: T) | Err(error: E)

  function Min(a: int, b: int): (r: int)
    ensures r <= a && r <= b && (r == a || r == b)
  {
    if a <= b then a else b
  }
}
