/** Failure values for the operations whose source raises an exception or reports
    an error: `Err` carries the exception's message. */
module Errors {

  datatype Option<T> = None | Some(value: T)

  datatype Result<T> = Ok(value: T) | Err(message: string)
}
