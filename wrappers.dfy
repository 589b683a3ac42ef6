/** Option and Result types shared by the other modules. */
module Wrappers {

  /** Python's `None` or a value. */
  datatype Option<+T> = None | Some(value: T)

  /** A value, or the exception that ends the call instead. */
  datatype Result<+T, +E> = Success(value: T) | Failure(error: E)
}
