/** Optional values and results with an error, shared by every module. */
module Wrappers {

  datatype Option<+T> = None | Some(value: T)

  /** A value, or the error that a C++ exception or error return stands for. */
  datatype Result<+T, +E> = Success(value: T) | Failure(error: E)
}
