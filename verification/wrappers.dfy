/** Option and Result, shared by the modules of the converter. */
module Wrappers {

  datatype Option<+T> = None | Some(value: T)

  /** The value of an operation, or the error the program raises instead. */
  datatype Result<+T, +E> = Success(value: T) | Failure(error: E)
}
