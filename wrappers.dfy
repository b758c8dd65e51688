/** Optional values and results with an error, used for null cells and for the
    points where the script stops with a message. */
module Wrappers {

  /** A cell that may be null (pandas NaN / None). */
  datatype Option<+T> = None | Some(value: T)

  /** An outcome that either carries a value or the reason the script stopped. */
  datatype Result<+T, +E> = Success(value: T) | Failure(error: E)
}
