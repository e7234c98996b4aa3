/** Optional values and results with an error, shared by every module of the model. */
module Wrappers {

  /** A value that may be absent (Rust's `Option`). */
  datatype Option<+T> = None | Some(value: T)

  /** The outcome of an operation that can fail (Rust's `Result`, or a panic the
      source would raise through `unwrap`). */
  datatype Result<+T, +E> = Ok(value: T) | Err(error: E)
}
