/** Failure-carrying values used across the model. */
module Wrappers {

  datatype Option<+T> = None | Some(value: T)

  /** The outcome of a step that either yields a value or raises an exception with a message. */
  datatype Result<+R> = Success(value: R) | Failure(error: string)
}
