/** Optional values and results: the model's stand-ins for Python's `None`
    and for an exception that ends a call. */
module Wrappers {

  datatype Option<+T> = None | Some(value: T) {
    function GetOr(default: T): T {
      match this
      case Some(v) => v
      case None => default
    }
  }

  /** `Err` is an exception raised out of the modelled call. */
  datatype Result<+T, +E> = Ok(value: T) | Err(error: E)
}
