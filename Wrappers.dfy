/** Optional values: the model's stand-in for TypeScript's `T | undefined`. */
module Wrappers {

  datatype Option<+T> = None | Some(value: T) {

    /** The value when present, otherwise `default` (TypeScript's `x ?? default`). */
    function GetOr(default: T): T {
      match this
      case Some(v) => v
      case None => default
    }
  }

  /** JavaScript truthiness of an optional number: present and not zero (`!!x`). */
  predicate Truthy(x: Option<int>) {
    x.Some? && x.value != 0
  }
}
