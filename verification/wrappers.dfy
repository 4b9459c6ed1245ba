/** The two wrappers used across the model: `Option` stands for a Java
    reference that may be null, `Result` for a computation that may end in a
    thrown exception. */
module Wrappers {

  /** A value that may be absent (a Java `null`). */
  datatype Option<+T> = None | Some(value: T)

  /** Either a computed value or the error that aborted the computation. */
  datatype Result<+R, +E> = Success(value: R) | Failure(error: E)
}
