/** Optional values, standing in for JavaScript's `undefined`. */
module Wrappers {

  /** `None` plays the part of an absent (undefined or null) value. */
  datatype Option<+T> = None | Some(value: T) {

    /** The carried value, or `default` when absent (the `??` operator). */
    function GetOr(default: T): (r: T)
      ensures Some? ==> r == value
      ensures None? ==> r == default
    {
      match this
      case Some(v) => v
      case None => default
    }
  }
}
