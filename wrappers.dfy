/** Optional values: `None` stands for JavaScript's `null`/`undefined` (and, for numbers, `NaN`). */
module Wrappers {

  datatype Option<+T> = None | Some(value: T) {

    /** The value, or a default when there is none (JavaScript's `x || d` on a defined, truthy `x`). */
    function GetOr(default: T): T {
      match this
      case Some(v) => v
      case None => default
    }
  }
}
