/** Optional values and results with an error, as the services return them. */
module Wrappers {

  /** A value that may be absent (Java's null or an empty `Optional`). */
  datatype Option<+T> = None | Some(value: T)

  /** The outcome of a service call: a value, or the exception it throws. */
  datatype Result<+T, +E> = Success(value: T) | Failure(error: E)
}
