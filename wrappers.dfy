/** Optional values and results with an error, used for nullable columns and for
    the error paths of the controllers. */
module Wrappers {

  datatype Option<+T> = None | Some(value: T) {
    /** PHP's null-coalescing `??`: this value, or the fallback when it is null. */
    function OrElse(fallback: Option<T>): Option<T> {
      if Some? then this else fallback
    }

    function GetOr(default: T): T {
      if Some? then value else default
    }
  }

  datatype Result<+T, +E> = Ok(value: T) | Err(error: E)
}
