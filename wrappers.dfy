/** Optional values and the outcome of an operation that may throw. */
module Wrappers {

  datatype Option<+T> = None | Some(value: T)

  /** A value returned normally, or the error an operation threw instead. */
  datatype Result<+R, +E> = Success(value: R) | Failure(error: E)
}
