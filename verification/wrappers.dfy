/** Failure-carrying datatypes used by the task-list model. */
module Wrappers {

  /** A value that may be absent: the stored task file either exists or it does not. */
  datatype Option<+T> = None | Some(value: T)

  /** The outcome of an operation that may raise: a value, or the error it raised. */
  datatype Result<+R, +E> = Success(value: R) | Failure(error: E)
}
