/** Optional values and results that carry the exception a Java call would throw. */
module Wrappers {

  /** java.util.Optional: Some(v) is Optional.of(v), None is Optional.empty(). */
  datatype Option<+T> = None | Some(value: T)

  /** The outcome of a Java expression that either returns a value or throws. */
  datatype Result<+T, +E> = Success(value: T) | Failure(error: E)
}
