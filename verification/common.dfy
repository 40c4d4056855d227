/** Failure-compatible wrappers shared by every module of the model.
    `None` stands for Python's `None` (or an absent dictionary key);
    `Failure` stands for an exception that escapes the modelled code. */
module Common {

  datatype Option<+T> = None | Some(value: T) {

    /** The value, or `default` when there is none (Python's `x if x is not None else d`). */
    function GetOr(default: T): T {
      match this
      case Some(v) => v
      case None => default
    }
  }

  datatype Result<+T, +E> = Success(value: T) | Failure(error: E)
}
