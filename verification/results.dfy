/** Optional values and results: the model's account of `undefined`/`null` and of
    the places where the source would throw. */
module Results {

  /** A value that may be missing. */
  datatype Option<+T> = None | Some(value: T) {

    /** The value, or `default` when there is none (JavaScript's `x || default`). */
    function GetOr(default: T): T {
      match this
      case Some(v) => v
      case None => default
    }
  }

  /** A computed value, or the reason the computation failed. */
  datatype Result<+T, +E> = Success(value: T) | Failure(error: E)
}
