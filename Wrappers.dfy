/** Optional values and outcomes with an error message. */
module Wrappers {
  /** JavaScript's `null`/`undefined` versus a present value. */
  datatype Option<+T> = None | Some(value: T) {
    /** The value, or `default` when there is none (JavaScript's `x ?? default`). */
    function GetOr(default: T): T {
      match this
      case Some(v) => v
      case None => default
    }
  }

  /** A value, or the message of the `Error` thrown instead. */
  datatype Result<+T> = Success(value: T) | Failure(error: string)
}
