/** Option and Result, the two Rust enums the import command is written with. */
module Wrappers {

  /** Rust's `Option<T>`. */
  datatype Option<+T> = None | Some(value: T)

  /** Rust's `Result<T, E>`: `Ok` is `Success`, `Err` is `Failure`. */
  datatype Result<+T, +E> = Success(value: T) | Failure(error: E)
}
