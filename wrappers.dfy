/** Option and Result values used for Python's None and for the error paths of the core. */
module Wrappers {

  datatype Option<+T> = None | Some(value: T) {
    /** The value held, or `default` for None (Python's `d.get(key, default)`). */
    function GetOr(default: T): T {
      match this
      case Some(v) => v
      case None => default
    }
  }

  datatype Result<+T, +E> = Ok(value: T) | Err(error: E)
}
