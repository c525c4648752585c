/** Optional values: `None` stands for a missing entry (a NaN cell or an absent neighbour). */
module Wrappers {

  datatype Option<+T> = None | Some(value: T) {

    /** The value, or `default` when there is none. */
    function GetOr(default: T): T {
      match this
      case Some(v) => v
      case None => default
    }
  }

  /** Success with a value, or failure with a reason. */
  datatype Result<+R> = Success(value: R) | Failure(error: string)
}
