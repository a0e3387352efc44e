/** Option and Result, the two failure-carrying shapes the model uses for
    Python's `None` and for exceptions that end an operation. */
module Wrappers {

  datatype Option<+T> = None | Some(value: T)

  /** `Err` carries the message of the exception the source raises. */
  datatype Result<+T> = Ok(value: T) | Err(message: string)
}
