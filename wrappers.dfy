/** Option and Result types for the source's nulls and exceptions. */
module Wrappers {
  datatype Option<T> = None | Some(value: T)

  /** A computation that either yields a value or fails with the source's exception message. */
  datatype Result<T> = Success(value: T) | Failure(error: string)
  {
    predicate IsFailure() { Failure? }
  }
}
