/** Optional values and results with an error, as Go's `(value, ok)` and
    `(value, err)` return pairs are used in gosearch. */
module Outcomes {

  /** An attribute or value that may be absent. */
  datatype Option<+T> = None | Some(value: T) {
    /** The value, or `default` when absent (goquery's `AttrOr`). */
    function GetOr(default: T): T {
      match this
      case Some(v) => v
      case None => default
    }
  }

  /** A successful value, or the error that ended the operation. */
  datatype Result<+T, +E> = Success(value: T) | Failure(error: E)
}
