/** Failure-carrying datatypes shared by the other modules. */
module Wrappers {

  /** A value that may be absent; a Python `None` or a call that raised. */
  datatype Option<+T> = None | Some(value: T)

  /** The outcome of an operation that either produces a value or raises an error. */
  datatype Result<+R, +E> = Success(value: R) | Failure(error: E)
}
