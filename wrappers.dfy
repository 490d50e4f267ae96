/** Optional values and results with an error, shared by the other modules. */
module Wrappers {

  /** A cell that may be empty: None stands for a Java `null` Integer. */
  datatype Option<+T> = None | Some(value: T)

  /** The outcome of an operation that can fail with an error of type E. */
  datatype Result<+R, +E> = Success(value: R) | Failure(error: E)
}
