/** Failure-carrying result types shared by the rest of the model. */
module Wrappers {

  /** A value that may be missing; stands for Python's `None`. */
  datatype Option<+T> = None | Some(value: T)

  /** Either a value or the message of the exception the source raises. */
  datatype Result<+T> = Success(value: T) | Failure(error: string)
}
