/** Failure-carrying values used across the model: `Option` for the source's
    nullable references and `Result` for its exceptions. */
module Wrappers {

  /** A value that may be absent (a Java `null`). */
  datatype Option<+T> = None | Some(value: T)

  /** Either a value or the error that the source would throw instead. */
  datatype Result<+T, +E> = Success(value: T) | Failure(error: E)
}
