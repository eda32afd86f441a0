/** Optional values and results with an error, used wherever the program
    tests a possibly missing field or raises an exception. */
module Wrappers {

  /** A value that may be absent (a missing key, `undefined`, `None`). */
  datatype Option<+T> = None | Some(value: T) {

    /** The value, or `default` when it is absent (Python's `dict.get(k, default)`). */
    function GetOr(default: T): T
    {
      match this
      case Some(v) => v
      case None => default
    }
  }

  /** The outcome of an operation that may raise an error. */
  datatype Result<+T, +E> = Ok(value: T) | Err(error: E)
}
