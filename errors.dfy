/** The outcome of an operation that may raise a LogicError (or a runtime error) instead of completing. */
module Errors {
  /** Success or a LogicError with its message. */
  datatype Outcome = Pass | Fail(msg: string)

  /** A value, or a LogicError with its message. */
  datatype Result<T> = Success(value: T) | Failure(msg: string)
}
