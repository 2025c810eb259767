/** Option and Result, the failure-carrying values used throughout the pipeline. */
module Wrappers {

  datatype Option<+T> = None | Some(value: T)

  /** The outcome of a stage that may raise: the value it returns or the exception it raises. */
  datatype Result<+T, +E> = Success(value: T) | Failure(error: E)
}
