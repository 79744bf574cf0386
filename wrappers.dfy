/** Option and Result, used for C#'s null and for the exceptions the source throws. */
module Wrappers {

  /** `None` stands for a C# `null`. */
  datatype Option<+T> = None | Some(value: T)

  /** `Failure` stands for an exception thrown by the source. */
  datatype Result<+R, +E> = Success(value: R) | Failure(error: E)
}
