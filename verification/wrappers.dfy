/** Failure-compatible wrappers used throughout the model: `Option` stands for
    the source's nullable values, `Result` for a call that either returns or
    throws an `Error`. */
module Wrappers {

  datatype Option<+T> = None | Some(value: T)

  datatype Result<+R, +E> = Success(value: R) | Failure(error: E)
}
