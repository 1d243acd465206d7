/** Small failure-carrying datatypes used across the model. */
module Wrappers {

  /** `None` stands for a missing value (a C# `null` reference). */
  datatype Option<+T> = None | Some(value: T)

  /** The outcome of a call that either returns a value or throws. */
  datatype Result<+T, +E> = Success(value: T) | Failure(error: E)
}
