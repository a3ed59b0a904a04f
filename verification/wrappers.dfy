/** Failure-carrying datatypes used by every operation of the model. */
module Wrappers {

  /** A value that may be absent: a JSON body field that was left out. */
  datatype Option<+T> = None | Some(value: T)

  /** The outcome of an operation: a value, or the error the handler answers with. */
  datatype Result<+T, +E> = Ok(value: T) | Err(error: E)
}
