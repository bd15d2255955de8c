/** The two failure-carrying datatypes the rest of the model uses. */
module Wrappers {

  /** A value that may be missing, such as the community of a command sent outside one. */
  datatype Option<+T> = None | Some(value: T)

  /** The outcome of a fallible operation: Rust's `Result<T, E>`. */
  datatype Result<+T, +E> = Ok(value: T) | Err(error: E)
}
