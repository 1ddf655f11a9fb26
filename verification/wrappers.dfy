/** Optional values and the outcome of an asynchronous request, shared by every module. */
module Wrappers {

  /** A JavaScript value that may be `undefined`. */
  datatype Option<+T> = None | Some(value: T) {

    /** The value, or `default` when absent (the `??` operator). */
    function GetOr(default: T): T {
      match this
      case Some(v) => v
      case None => default
    }
  }

  /** What an awaited request produced: a resolved response whose payload is present or
      missing (`data && data.data` failing), or a thrown error. */
  datatype FetchResult<+T> = Resolved(payload: Option<T>) | Thrown
}
