/** Option and Result datatypes used throughout the model. */
module Wrappers {

  /** A value that may be absent: a missing cell (NaN/None) or a statistic that does not exist. */
  datatype Option<+T> = None | Some(value: T)

  /** The outcome of an operation that can raise. */
  datatype Result<+T, +E> = Success(value: T) | Failure(error: E)
}
