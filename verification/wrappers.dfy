/** Optional values and success/failure results shared by every module.
    `None` plays the role of the source's `null`/`undefined`. */
module Wrappers {

  datatype Option<+T> = None | Some(value: T) {

    /** The wrapped value, or `default` for `None` (the source's `x ?? default`). */
    function GetOr(default: T): T {
      match this
      case Some(v) => v
      case None => default
    }
  }

  /** Outcome of a validating form handler: the accepted value or the first complaint. */
  datatype Result<+R, +E> = Success(value: R) | Failure(error: E)
}
