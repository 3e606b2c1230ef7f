/** Absence and error signals shared by the modules of the model. */
module Wrappers {

  /** Python's `None` versus a present value. */
  datatype Option<+T> = None | Some(value: T)

  /** An early return (`Failure`) versus a value to carry on with (`Success`). */
  datatype Result<+R, +E> = Success(value: R) | Failure(error: E)
}
