/** Optional values: a DOM lookup that may find nothing, a response that may not arrive. */
module Wrappers {

  datatype Option<+T> = None | Some(value: T) {

    /** The value, or `default` when there is none (JavaScript's `x || default` on a value that is present or absent). */
    function GetOr(default: T): T {
      match this
      case Some(v) => v
      case None => default
    }

    /** The first present of `this` and `other` (JavaScript's `a || b` on two element lookups). */
    function OrElse(other: Option<T>): (r: Option<T>)
      ensures Some? ==> r == this
      ensures None? ==> r == other
    {
      match this
      case Some(_) => this
      case None => other
    }
  }
}
