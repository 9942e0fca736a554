/** Optional values and fallible results, shared by every module of the model. */
module Wrappers {

  /** Swift's `T?` and Python's `X | None`. */
  datatype Option<+T> = None | Some(value: T) {
    function GetOr(default: T): T {
      match this
      case Some(v) => v
      case None => default
    }
  }

  /** A call that either returns a value or throws; `error` is the error's description, if it has one. */
  datatype Result<+R> = Success(value: R) | Failure(error: Option<string>)
}
