/** Failure-carrying datatypes shared by the model. */
module Wrappers {

  /** An optional value. `None` stands for an absent (null) reference. */
  datatype Option<+T> = None | Some(value: T)

  /** The outcome of an operation that either yields a value or fails with an error. */
  datatype Result<+T, +E> = Success(value: T) | Failure(error: E)
}
