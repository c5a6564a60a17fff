/** Option and Result, the failure-carrying values used across the model. */
module Wrappers {

  datatype Option<+T> = None | Some(value: T)

  /** The outcome of an operation that the original program lets raise: either its value or the
      message of the exception that ended it. */
  datatype Result<+T> = Success(value: T) | Failure(error: string)

  /** The outcome of an operation that returns nothing when it does not raise. */
  datatype Outcome = Pass | Fail(error: string)
}
