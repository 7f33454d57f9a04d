/** An optional value: what the source writes as `T | undefined`. */
module Wrappers {
  datatype Option<+T> = None | Some(value: T) {
    /** The value, or the one given where there is none: the source's `??`. */
    function GetOr(default: T): T {
      match this
      case Some(v) => v
      case None => default
    }
  }
}
