/** Option and Result, the two shapes the ledger core uses for "maybe absent" and "may fail". */
module Wrappers {

  /** Rust's `Option<T>`. */
  datatype Option<+T> = None | Some(value: T)

  /** Rust's `Result<T, E>`; `Failure` carries the error that a caller sees. */
  datatype Result<+T, +E> = Success(value: T) | Failure(error: E)
}
