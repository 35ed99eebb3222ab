/** The optional value used for JavaScript's `undefined` / `null` results
    (`Array.prototype.find` misses, absent regex matches, a missing token). */
module Wrappers {

  datatype Option<+T> = None | Some(value: T) {

    /** Returns the value in Some or `default` for None (JavaScript's `??`). */
    function GetOr(default: T): T {
      match this
      case Some(v) => v
      case None => default
    }
  }
}
