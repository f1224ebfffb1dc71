/** Optional values: a JavaScript `undefined` (or a missing request field) is `None`. */
module Wrappers {

  datatype Option<T> = None | Some(value: T) {

    /** The value, or `default` when there is none (a destructuring default such as `x = 'text'`). */
    function GetOr(default: T): T {
      if Some? then value else default
    }
  }
}
