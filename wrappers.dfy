/** Option and Result as in Rust, shared by every module of the model. */
module Wrappers {

  /** A value that may be absent (Rust's `Option`). */
  datatype Option<+T> = None | Some(value: T)

  /** The outcome of a fallible operation (Rust's `Result`). */
  datatype Result<+T, +E> = Ok(value: T) | Err(error: E)
}
