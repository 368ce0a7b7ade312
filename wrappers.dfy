/** Optional values and results with an error channel, shared by both components. */
module Wrappers {

  datatype Option<+T> = None | Some(value: T)

  /** The outcome of an operation that the source would end by throwing. */
  datatype Result<+R, +E> = Success(value: R) | Failure(error: E)
}
