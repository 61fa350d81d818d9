/** Option and Result values standing for JavaScript's `null` and for a
    promise that resolves or rejects with an `Error` message. */
module Wrappers {

  datatype Option<+T> = None | Some(value: T) {
    /** `x ?? d` */
    function GetOr(default: T): T {
      match this
      case Some(v) => v
      case None => default
    }
  }

  /** A call that returns a value or throws `new Error(error)`. */
  datatype Result<+T> = Success(value: T) | Failure(error: string)
}
