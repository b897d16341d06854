/** Option and Result, the failure-carrying values the rest of the model returns. */
module Wrappers {

  datatype Option<+T> = None | Some(value: T)

  /** A value or an error message; the program aborts on every error, so the model surfaces it here. */
  datatype Result<+T, +E> = Success(value: T) | Failure(error: E)
}
