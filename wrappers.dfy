/**
 * Optional values, used wherever the source returns None or a value, and
 * outcomes, used wherever the source may raise instead of returning.
 */
module Wrappers {

  datatype Option<+T> = None | Some(value: T) {

    /** The value, or `default` when there is none (Python's `x if x is not None else default`). */
    function GetOr(default: T): T {
      match this
      case Some(v) => v
      case None => default
    }
  }

  /** A call that returns a value, or raises an exception. */
  datatype Outcome<+T> = Returns(value: T) | Raises
}
