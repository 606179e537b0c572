/** Option and Result wrappers, and the error conditions a List reports. */
module Wrappers {

  /** An optional value; for a stored cell, None is the missing-value (NaN) sentinel. */
  datatype Option<+T> = None | Some(value: T)

  /** The lookup errors a List surfaces to its caller. */
  datatype Error =
    | UnknownDimension(name: string)
    | OutOfRange(index: int)

  datatype Result<+T> = Ok(value: T) | Err(error: Error)
}
