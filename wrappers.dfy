/** Option and Result types used for the absent values and error paths of the script. */
module Wrappers {

  /** Python's `None` (absent) or a present value. */
  datatype Option<+T> = None | Some(value: T)

  /** A value, or the error the Python code would raise instead. */
  datatype Result<+T, +E> = Success(value: T) | Failure(error: E)
}
