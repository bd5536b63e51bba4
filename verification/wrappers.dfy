/** Optional values and results with an error value, as used across the model. */
module Wrappers {

  /** A value that may be absent (Python's `None`). */
  datatype Option<+T> = None | Some(value: T)

  /** A computation that either yields a value or raises an error. */
  datatype Result<+R, +E> = Success(value: R) | Failure(error: E)
}
