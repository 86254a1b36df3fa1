/** Option and Result datatypes shared by the modules. */
module Wrappers {

  /** A value that may be absent; stands for Python's `None`-or-value returns. */
  datatype Option<+T> = None | Some(value: T)

  /** The outcome of an operation that may raise: a value, or the error it raised. */
  datatype Result<+R, +E> = Success(value: R) | Failure(error: E)
}
