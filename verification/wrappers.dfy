/** Failure-carrying values shared by the models: the C++ sources report
    errors by returning sentinel values, throwing, or aborting on an assert;
    the models return `None` on those paths instead. */
module Wrappers {

  datatype Option<+T> = None | Some(value: T) {

    /** The wrapped value, or `default` when there is none. */
    function GetOr(default: T): T {
      match this
      case Some(v) => v
      case None => default
    }
  }
}
