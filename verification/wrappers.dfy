/** The optional and fallible results shared by the whole model. */
module Wrappers {

  /** Python's `None`, or a value. */
  datatype Option<+T> = None | Some(value: T)

  /** A computed value, or the exception the code would raise. */
  datatype Result<+R, +E> = Success(value: R) | Failure(error: E)
}
