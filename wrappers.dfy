/** Failure-carrying values used across the model: a missing value and a
    computation that either produces a value or stops with an error. */
module Wrappers {

  datatype Option<+T> = None | Some(value: T)

  datatype Result<+T, +E> = Success(value: T) | Failure(error: E)
}
