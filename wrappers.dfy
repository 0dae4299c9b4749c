/** The optional value used wherever the source has an optional argument or a
    conversion that can come back empty (NaN, an absent parameter). */
module Wrappers {

  datatype Option<+T> = None | Some(value: T) {

    function GetOr(default: T): T {
      match this
      case Some(v) => v
      case None => default
    }
  }
}
