/** Failure-carrying result types shared by the other modules. */
module Wrappers {

  /** A value that may be absent (Python's `None`). */
  datatype Option<T> = None | Some(value: T)

  /** The outcome of a step that may fail with an error of type E. */
  datatype Result<T, E> = Success(value: T) | Failure(error: E)
}
