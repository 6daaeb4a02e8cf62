/** Failure-carrying results used by the converter model. */
module Wrappers {

  /** An optional value: `None` where the source's lookup raises. */
  datatype Option<+T> = None | Some(value: T)

  /** A value or the error the source would raise instead of returning it. */
  datatype Result<+R, +E> = Success(value: R) | Failure(error: E)
}
