/** Option and Result, used wherever the source returns "nothing" or throws. */
module Wrappers {

  datatype Option<+T> = None | Some(value: T)

  /** `Failure` stands for an exception thrown by the modelled code. */
  datatype Result<+T> = Success(value: T) | Failure
}
