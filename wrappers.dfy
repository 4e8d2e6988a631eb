/** Rust's `Result` and `Option`, as the core returns them. */
module Wrappers {

  /** `Ok(value)` or `Err(error)`, as Rust's `Result<T, E>`. */
  datatype Result<+T, +E> = Ok(value: T) | Err(error: E)

  /** `Some(value)` or `None`, as Rust's `Option<T>`. */
  datatype Option<+T> = None | Some(value: T)
}
