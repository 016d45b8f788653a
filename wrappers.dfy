/** Optional values (a JSON key that may be absent) and results with an error value. */
module Wrappers {

  datatype Option<+T> = None | Some(value: T) {

    /** The carried value, or `default` when there is none (Python's `dict.get(key, default)`). */
    function GetOr(default: T): T {
      match this
      case Some(v) => v
      case None => default
    }
  }

  /** A value, or the error that a Python function would have raised instead of returning. */
  datatype Result<+R, +E> = Ok(value: R) | Err(error: E)
}
