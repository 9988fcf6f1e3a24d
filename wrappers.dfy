/** Option and Result: the failure-carrying values used across the model. */
module Wrappers {

  datatype Option<+T> = None | Some(value: T)

  /** A computation that either yields a value or stops with an error
      (in the source: a Python exception that ends the request). */
  datatype Result<+R, +E> = Success(value: R) | Failure(error: E)
}
