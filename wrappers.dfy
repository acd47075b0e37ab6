/** Option and Result: the nil-or-value and value-or-exception shapes of the Ruby code. */
module Wrappers {

  /** `nil` or a value. */
  datatype Option<+T> = None | Some(value: T)

  /** A normal return, or the exception a Ruby method raises instead. */
  datatype Result<+R, +E> = Success(value: R) | Failure(error: E)
}
