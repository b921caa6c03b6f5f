/** Option and Result, used for the optional cached exception and for the
    construction-time failure of a getter clause. */
module Wrappers {

  datatype Option<+T> = None | Some(value: T)

  datatype Result<+R, +E> = Success(value: R) | Failure(error: E)
}
