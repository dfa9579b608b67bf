/** Wrappers shared by the model: an optional value and a value-or-error
    result. */
module Wrappers {

  /** An optional value: the model's rendering of Python's `Optional[...]`. */
  datatype Option<+T> = None | Some(value: T) {

    /** The wrapped value, or `default` when there is none. */
    function GetOr(default: T): T {
      match this
      case Some(v) => v
      case None => default
    }
  }

  /** Either a value or the error that prevented computing it. */
  datatype Result<+T, +E> = Ok(value: T) | Err(error: E)
}
