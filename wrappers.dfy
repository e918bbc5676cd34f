/** Option and Result, the failure-carrying values used throughout the model. */
module Wrappers {

  datatype Option<+T> = None | Some(value: T)

  /** The value of an operation that either succeeds or fails with an error `E`
      (Rust's `Result<T, E>`; a `panic!` of the source is modelled as a `Failure`). */
  datatype Result<+T, +E> = Success(value: T) | Failure(error: E)
}
