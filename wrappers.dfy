/** Optional values: Ruby's `nil` versus a present value. */
module Wrappers {

  datatype Option<T> = None | Some(value: T) {

    /** The value if present, otherwise `default` (Ruby's `x || default`). */
    function GetOr(default: T): T {
      match this
      case Some(v) => v
      case None => default
    }
  }
}
