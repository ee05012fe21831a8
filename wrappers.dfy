/** Failure-compatible result types shared by the modules of this model. */
module Wrappers {

  datatype Option<+T> = None | Some(value: T)

  /** The outcome of an operation that either yields a value or ends the program with a fatal error. */
  datatype Result<+T, +E> = Success(value: T) | Failure(error: E)
}
