/** Small value types shared by every module of the model. */
module Common {

  /** One octet, as held by a Node.js Buffer or a Uint8Array. */
  type byte = x: int | 0 <= x < 256

  /** A value that may be absent (JavaScript's undefined, or a falsy field that `|| default` replaces). */
  datatype Option<T> = None | Some(value: T) {

    /** The value, or the default when absent. */
    function GetOr(default: T): T {
      match this
      case Some(v) => v
      case None => default
    }
  }

  /** A computation that either yields a value or throws an Error carrying a message. */
  datatype Result<R, E> = Success(value: R) | Failure(error: E)
}
