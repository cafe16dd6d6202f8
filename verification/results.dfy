/**
 The two small wrapper types the model uses in place of JavaScript's
 dynamic conventions:
 - Option stands for an argument that may be left out (`undefined`);
 - Result stands for a computation that either returns or throws.
 */
module Results {

  /** An optional value: `None` is an argument the caller did not pass. */
  datatype Option<+T> = None | Some(value: T) {

    /** The carried value, or `default` when there is none. */
    function GetOr(default: T): T {
      match this
      case Some(v) => v
      case None => default
    }
  }

  /** The outcome of a call that may throw: a value or the thrown error. */
  datatype Result<+T, +E> = Success(value: T) | Failure(error: E)
}
