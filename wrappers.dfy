/** Outcome datatypes shared by the link-store model. */
module Wrappers {

  /** Either a value or an error, the shape of every handler's outcome. */
  datatype Result<+T, +E> = Success(value: T) | Failure(error: E)
}
