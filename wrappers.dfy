/** Option and Result values for the NULL returns and the error paths of the C code. */
module Wrappers {

  /** A value or nothing: a C pointer that may be NULL. */
  datatype Option<+T> = None | Some(value: T)

  /** A success value or an error value. */
  datatype Result<+R, +E> = Success(value: R) | Failure(error: E)
}
