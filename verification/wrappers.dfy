/** The optional-value and success-or-exception datatypes shared by the rest
    of the model. */
module Wrappers {

  /** Python's `None` versus a present value. */
  datatype Option<+T> = None | Some(value: T)

  /** A computation that either produced a value or raised an `Exception`
      whose `str(e)` is the carried error. */
  datatype Result<+R, +E> = Success(value: R) | Failure(error: E)
}
