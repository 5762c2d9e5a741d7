/** Failure-carrying values used by the authentication model. */
module Wrappers {

  /** A value that may be absent: a nullable column, a query with no row. */
  datatype Option<+T> = None | Some(value: T)

  /** The outcome of a fallible step: Rust's `Result<T, E>`. */
  datatype Result<+T, +E> = Ok(value: T) | Err(error: E)
}
