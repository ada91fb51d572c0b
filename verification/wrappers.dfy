/** `Option` for the result of `dict.get`, `Result` for a value or the error Python would raise. */
module Wrappers {

  /** A value that may be absent, as Python's `None`. */
  datatype Option<+T> = None | Some(value: T)

  /** Either a computed value or the error that the Python code would raise. */
  datatype Result<+R, +E> = Success(value: R) | Failure(error: E)
}
