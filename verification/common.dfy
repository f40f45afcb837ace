/** Small failure-carrying datatypes shared by every module of the model. */
module Common {

  /** Python's `None` versus a present value. */
  datatype Option<+T> = None | Some(value: T) {
    function GetOr(default: T): T {
      match this
      case Some(v) => v
      case None => default
    }
  }

  /** The outcome of a Python function that may raise: its return value, or
      the exception class that escaped from it. */
  datatype Result<+T> = Ok(value: T) | Raised(exception: string)

  function Min(a: int, b: int): int { if a <= b then a else b }
  function Max(a: int, b: int): int { if a <= b then b else a }
}
