/** Optional values and success/failure results, standing in for the source's
    `null` values and thrown errors. */
module Wrappers {

  datatype Option<+T> = None | Some(value: T) {

    /** The held value, or `default` when there is none (the `??` operator). */
    function GetOr(default: T): T {
      match this
      case Some(v) => v
      case None => default
    }
  }

  /** The outcome of an operation that the source lets throw. */
  datatype Result<+T, +E> = Ok(value: T) | Err(error: E)
}
