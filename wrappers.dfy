/** Option and Result, the two failure-carrying types the models use. */
module Wrappers {

  /** Rust's `Option<T>`. */
  datatype Option<T> = None | Some(value: T)

  /** A computation that either produces a value or stops where the Rust code would panic. */
  datatype Result<T, E> = Ok(value: T) | Err(error: E)
}
