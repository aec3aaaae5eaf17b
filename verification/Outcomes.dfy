/** The optional values and error outcomes the canvas model needs. */
module Outcomes {

  /** A value that may be missing, as `None` is in the source. */
  datatype Option<+T> = None | Some(value: T)

  /** The outcome of an operation that can fail, as an uncaught exception does in the source. */
  datatype Result<+T> = Success(value: T) | Failure(error: string)
}
