/** Option and Result values standing for Java's null references and thrown exceptions. */
module Wrappers {

  /** A possibly-null reference. */
  datatype Option<+T> = None | Some(value: T)

  /** The outcome of an operation that either returns a value or throws. */
  datatype Result<+T, +E> = Ok(value: T) | Err(error: E)
}
