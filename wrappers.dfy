/** Option and Result: the absence of a value and the outcome of a call that may raise. */
module Wrappers {

  datatype Option<+T> = None | Some(value: T)

  /** A Python call that either returns a value or raises an exception. */
  datatype Result<+T, +E> = Success(value: T) | Failure(error: E)
}
