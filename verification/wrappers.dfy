/** Option and Result, standing in for Java's nullable references and exceptions. */
module Wrappers {

  /** A value that may be absent: a nullable `Long` or a missing lookup result. */
  datatype Option<+T> = None | Some(value: T)

  /** The outcome of a service call: a value, or the failure the service would throw. */
  datatype Result<+T, +E> = Ok(value: T) | Err(error: E)
}
