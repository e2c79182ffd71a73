/** Optional values. The source is JavaScript, where a field may simply be
    absent (`undefined`) or a state slot may hold `null`; both are `None` here. */
module Wrappers {

  datatype Option<+T> = None | Some(value: T) {

    /** The wrapped value, or `default` when there is none. */
    function GetOr(default: T): T {
      match this
      case Some(v) => v
      case None => default
    }
  }
}
