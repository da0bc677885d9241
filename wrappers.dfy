/** Option, Result and Outcome: the shapes every lookup and every request of
    the events controller returns: a record or nothing, a value or an error,
    success or an error. */
module Wrappers {

  datatype Option<+T> = None | Some(value: T)

  datatype Result<+R, +E> = Success(value: R) | Failure(error: E)

  datatype Outcome<+E> = Pass | Fail(error: E)
}
