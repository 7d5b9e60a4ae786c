/** Option and Result values, for the scheduler's "no slot" outcome and the
    errors the session reports instead of a schedule. */
module Wrappers {

  datatype Option<+T> = None | Some(value: T)

  datatype Result<+R, +E> = Success(value: R) | Failure(error: E)
}
