/** Optional values and results used across the configuration model. */
module Wrappers {

  /** A value that may be absent: Python's `None` on one side, a value on the other. */
  datatype Option<+T> = None | Some(value: T)

  /** The outcome of an operation that may raise: `Failure` stands for the exception. */
  datatype Result<+R, +E> = Success(value: R) | Failure(error: E)
}
