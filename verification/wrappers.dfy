/** Optional values and success/failure results used across the launcher model. */
module Wrappers {

  /** A value that may be missing (Python's `None`). */
  datatype Option<+T> = None | Some(value: T)

  /** The outcome of an operation that either produces a value or reports why it did not. */
  datatype Result<+R, +E> = Success(value: R) | Failure(error: E)
}
