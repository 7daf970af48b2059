/** Error and result values shared by every part of the model. */
module Outcomes {

  /** Go's `error` interface, reduced to the text its `Error()` method returns. */
  datatype Error = Error(message: string)

  /** A Go `(value, error)` pair: when the error is non-nil the value is
      meaningless, so only one of the two is kept. */
  datatype Result<+T> = Ok(value: T) | Err(error: Error)
}
