/** Option and Result: the `undefined` and the rejected-promise outcomes of the hover code. */
module Wrappers {

  datatype Option<+T> = None | Some(value: T)

  datatype Result<+R, +E> = Success(value: R) | Failure(error: E)
}
