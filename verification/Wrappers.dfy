/** Optional values, used wherever the program carries `null` or `undefined`. */
module Wrappers {

  datatype Option<+T> = None | Some(value: T) {
    /** The value, or a default when there is none (`??`). */
    function GetOr(default: T): T {
      match this
      case Some(v) => v
      case None => default
    }

    /** This value when present, the other one otherwise. */
    function Or(other: Option<T>): Option<T> {
      if Some? then this else other
    }
  }
}
