/** Option and the error raised by strict child lookup. */
module Wrappers {

  datatype Option<+T> = None | Some(value: T) {
    /** The wrapped value, or `default` when absent. */
    function GetOr(default: T): T {
      match this
      case Some(v) => v
      case None => default
    }
  }

  /** The only error the tree raises: a path segment that does not resolve. */
  datatype Error = NotFound(path: string)

  datatype Result<+T> = Ok(value: T) | Failure(error: Error)
}
