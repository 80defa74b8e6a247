/** Failure-carrying results used where the Rust source returns `Option` or panics. */
module Wrappers {

  /** Rust's `Option<T>`. */
  datatype Option<+T> = None | Some(value: T)

  /** The outcome of an operation that the source ends with a panic on bad input. */
  datatype Result<+R, +E> = Success(value: R) | Failure(error: E)
}
