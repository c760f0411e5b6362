/** Option and Result, the shapes of Rust's Option<T> and Result<T, E>. */
module Wrappers {

  datatype Option<+T> = None | Some(value: T)

  /** Rust's Result<T, E>: Ok carries the value, Err the error. */
  datatype Result<+T, +E> = Ok(value: T) | Err(error: E)

  /** A result with no value on success, as Rust's Result<(), E>. */
  datatype Outcome<+E> = Pass | Fail(error: E)
}
