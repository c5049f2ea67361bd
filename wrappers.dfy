/** Option and Result, the failure-carrying datatypes used throughout the model. */
module Wrappers {

  datatype Option<+T> = None | Some(value: T)

  /** A thrown error becomes a Failure; a returned value a Success. */
  datatype Result<+R, +E> = Success(value: R) | Failure(error: E)
}
