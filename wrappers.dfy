/** Option and Result: the error paths that the application raises as
    Python exceptions are returned as values here. */
module Wrappers {

  datatype Option<+T> = None | Some(value: T)

  datatype Result<+R, +E> = Success(value: R) | Failure(error: E)
}
