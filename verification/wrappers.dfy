/** Failure-carrying results for the source's boolean-plus-out-parameter returns
    and Python exceptions. */
module Wrappers {

  datatype Option<+T> = None | Some(value: T)
  {
    /** The value if present, `default` otherwise (Python's `dict.get(key, default)`). */
    function GetOr(default: T): T {
      match this
      case Some(v) => v
      case None => default
    }
  }

  datatype Result<+R, +E> = Success(value: R) | Failure(error: E)
}
