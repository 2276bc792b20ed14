/** Option and Result, used for the values that may be missing and for the
    operations that raise an exception in the modelled program. */
module Wrappers {

  datatype Option<+T> = None | Some(value: T)

  datatype Result<+T, +E> = Success(value: T) | Failure(error: E)
}
