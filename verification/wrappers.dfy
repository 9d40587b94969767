/** Failure-carrying result types shared by the parsers and encoders. */
module Wrappers {

  /** A value that may be absent: `None` stands for a Python exception or a
      C++ "return empty" error path. */
  datatype Option<+T> = None | Some(value: T)

  /** A value or an error description, for C++ calls that throw. */
  datatype Result<+T, +E> = Success(value: T) | Failure(error: E)
}
