/** Option and Result carriers used for Go's `(value, err)` returns and for fatal outcomes. */
module Wrappers {

  datatype Option<+T> = None | Some(value: T)

  datatype Result<+R, +E> = Success(value: R) | Failure(error: E)
}
