/** Failure-carrying datatypes used throughout the model. */
module Wrappers {

  /** A value that may be absent: a missing dictionary key, a regex that found nothing. */
  datatype Option<+T> = None | Some(value: T)

  /** A computation that either produces a value or raises a Python exception. */
  datatype Result<+T, +E> = Success(value: T) | Failure(error: E)
}
