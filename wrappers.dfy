/** Option and Result, the failure-carrying values the rest of the model returns. */
module Wrappers {

  datatype Option<+T> = None | Some(value: T)

  /** A value, or the exception that Python code would raise instead. */
  datatype Result<+R, +E> = Success(value: R) | Failure(error: E)
}
