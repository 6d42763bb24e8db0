/** Option and Result types shared by the other modules. */
module Wrappers {

  datatype Option<+T> = None | Some(value: T)

  /** The outcome of a step that may raise: a value, or the error that aborts the run. */
  datatype Result<+R, +E> = Success(value: R) | Failure(error: E)
}
