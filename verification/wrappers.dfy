/** Failure-carrying datatypes used where the modelled JavaScript returns
    `undefined`/`null` or throws. */
module Wrappers {

  /** A value that may be absent: an unset query parameter, a call that threw. */
  datatype Option<+T> = None | Some(value: T)

  /** A value or the message of the exception that replaced it. */
  datatype Result<+T, +E> = Ok(value: T) | Err(error: E)
}
