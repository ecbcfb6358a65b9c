/** Result values used for the error paths of the model. */
module Wrappers {

  /** The outcome of an operation that either yields a value or fails with an error. */
  datatype Result<+T, +E> = Success(value: T) | Failure(error: E)
}
