/** Failure-carrying result types shared by every module of the model. */
module Wrappers {

  /** A value that may be absent: a SQL NULL, a row that `fetchone` did not find,
      or a library call that raised. */
  datatype Option<+T> = None | Some(value: T)

  /** The outcome of a computation that either yields a value or fails with an error. */
  datatype Result<+T, +E> = Success(value: T) | Failure(error: E)
}
