/** Option and Result, used for the source's nullable references and for the
    exceptions its private helpers throw. */
module Wrappers {

  /** A reference that may be null: `None` is C#'s `null`. */
  datatype Option<+T> = None | Some(value: T)

  /** The outcome of a call that either returns a value or throws. */
  datatype Result<+R, +E> = Success(value: R) | Failure(error: E)
}
