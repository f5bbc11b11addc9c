/** Failure-carrying wrappers shared by the other modules. */
module Wrappers {

  /** An optional value, used by the partial parsers. */
  datatype Option<+T> = None | Some(value: T)

  /** The value of an operation that may raise: `Err` carries the exception. */
  datatype Result<+T, +E> = Ok(value: T) | Err(error: E)
}
