/** Error values for the exceptions the colour picker throws on bad arguments. */
module Failures {

  /** The exception classes the core raises, with the parameter name they report. */
  datatype Error =
    | ArgumentOutOfRange(param: string)   // ArgumentOutOfRangeException
    | InvalidArgument(param: string)      // ArgumentException

  /** A computation that either yields a value or throws. */
  datatype Result<T> = Ok(value: T) | Err(error: Error)

  /** A reference that may be null. */
  datatype Option<T> = None | Some(value: T)

  /** A statement that either completes or throws. */
  datatype Outcome = Pass | Fail(error: Error)
}
