/** Rust's `Option` and `Result`. */
module Wrappers {

  /** Rust's `Option<T>`. */
  datatype Option<+T> = None | Some(value: T)

  /** Rust's `Result<T, E>`; `Failure` carries the error value. */
  datatype Result<+T, +E> = Success(value: T) | Failure(error: E)
}
