/** Optional values: an image that has not loaded, a pointer position that is
    not available, a patch field that is not given. */
module Wrappers {
  datatype Option<+T> = None | Some(value: T) {
    function GetOr(default: T): T {
      match this
      case Some(v) => v
      case None => default
    }
  }
}
