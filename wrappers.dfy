/** Failure-carrying values shared by the codec and the matrix operations. */
module Wrappers {

  datatype Option<+T> = None | Some(value: T)

  /** What the matrix code raises: a header that does not parse, or operands of
      incompatible shape. */
  datatype Error = FormatError | DimensionMismatch

  datatype Result<+T> = Success(value: T) | Failure(error: Error)
}
