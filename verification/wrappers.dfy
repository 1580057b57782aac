/** Optional values and results with an error channel. */
module Wrappers {

  /** An optional value; also stands for a Java reference that may be null. */
  datatype Option<+T> = None | Some(value: T)

  /** A value or the exception that replaced it. */
  datatype Result<+T, +E> = Success(value: T) | Failure(error: E)
}
