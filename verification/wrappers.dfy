/** Optional values and results with an error, used wherever the Python code
    returns None or raises. */
module Wrappers {

  /** A value that may be absent (Python's None). */
  datatype Option<+T> = None | Some(value: T)

  /** A computation that either succeeds with a value or fails with an error
      (the Python code raises an exception in the failure case). */
  datatype Result<+T, +E> = Success(value: T) | Failure(error: E)
}
