/** Failure-carrying datatypes shared by the whole model. */
module Wrappers {

  /** An optional value: Python's `None` or a present value. */
  datatype Option<+T> = None | Some(value: T)

  /** Either a computed value or the error a Python function would raise. */
  datatype Result<+R, +E> = Success(value: R) | Failure(error: E)
}
