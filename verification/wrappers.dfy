/** Optional values and results with an error, used where the Python code
    returns `None` or raises. */
module Wrappers {

  /** A value that may be absent (Python `None`). */
  datatype Option<+T> = None | Some(value: T)

  /** The outcome of an operation that may raise. */
  datatype Result<+T> = Success(value: T) | Failure(error: string)
}
