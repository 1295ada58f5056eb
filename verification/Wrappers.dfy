/** The Option and Result types shared by all modules. */
module Wrappers {

  /** Rust's `Option`. */
  datatype Option<+T> = None | Some(value: T)

  /** Rust's `Result`. */
  datatype Result<+R, +E> = Ok(value: R) | Err(error: E)
}
