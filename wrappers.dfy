/** Option and Result, used for Python's `None` and for raised exceptions. */
module Wrappers {

  /** `None` or a value; Python's `None` in a list or as a return value. */
  datatype Option<+T> = None | Some(value: T)

  /** The value of a call that either returns or raises an exception carrying `error`. */
  datatype Result<+T, +E> = Success(value: T) | Failure(error: E)
}
