/** Optional values and results shared by the modules of this model. */
module Wrappers {

  /** A value that may be absent (C#'s `null`, or "no such thing"). */
  datatype Option<+T> = None | Some(value: T)

  /** The outcome of an operation that can throw. */
  datatype Result<+T, +E> = Success(value: T) | Failure(error: E)
}
