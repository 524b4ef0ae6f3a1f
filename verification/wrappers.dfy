/** Optional values and results with an error, used for Python's `None` and for exceptions. */
module Wrappers {

  datatype Option<+T> = None | Some(value: T) {
    /** The wrapped value, or `default` when there is none. */
    function GetOr(default: T): T {
      match this
      case Some(v) => v
      case None => default
    }
  }

  /** `Err` carries the name of the Python exception the operation raises. */
  datatype Result<+T, +E> = Ok(value: T) | Err(error: E)
}
