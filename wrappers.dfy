/** Option and Result values used wherever the system returns "nothing" or throws. */
module Wrappers {

  datatype Option<+T> = None | Some(value: T)

  /** A service call either produces a value or raises an error. */
  datatype Result<+T, +E> = Ok(value: T) | Err(error: E)

  /** A field of an update request: left out of the request, or supplied. */
  datatype Patch<+T> = Absent | Given(value: T)
}
