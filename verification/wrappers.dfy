/** Failure-carrying result types shared by every module of the model. */
module Wrappers {

  /** A value that may be absent; `None` stands for Python's `None` return. */
  datatype Option<+T> = None | Some(value: T)

  /** The outcome of an operation that may raise; `Failure` stands for the exception. */
  datatype Result<+T, +E> = Success(value: T) | Failure(error: E)
}
