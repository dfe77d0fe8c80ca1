/** Optional values and outcomes: JavaScript's `null` becomes `None`, and a
    handler that answers with an HTTP 400 becomes an `Err`. */
module Outcomes {

  /** A value that may be absent (`null` in the source). */
  datatype Option<T> = None | Some(value: T) {

    /** The wrapped value, or `default` when absent (JavaScript's `x || default`
        for values that are never falsy). */
    function GetOr(default: T): T {
      match this
      case Some(v) => v
      case None => default
    }
  }

  /** The outcome of a guarded operation: a new value or the reason it was refused. */
  datatype Result<T, E> = Ok(value: T) | Err(error: E)
}
