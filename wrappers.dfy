/** Option and Result, used for Python's `None` and for the exceptions the
    collector raises. */
module Wrappers {

  datatype Option<+T> = None | Some(value: T)

  datatype Result<+T, +E> = Success(value: T) | Failure(error: E)
}
