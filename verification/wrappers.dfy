/** Failure-carrying datatypes shared by the whole model. */
module Wrappers {

  /** A value that may be absent: Python's `None`, JavaScript's `NaN` or `null`. */
  datatype Option<+T> = None | Some(value: T)

  /** The outcome of an operation that either yields a value or reports an error. */
  datatype Result<+R, +E> = Success(value: R) | Failure(error: E)
}
