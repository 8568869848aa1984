/** Optional values and success-or-error results, the two shapes every
    operation of the user service returns. */
module Results {

  /** A value that may be absent: SQL NULL, a JavaScript `null`/`undefined`,
      or an argument the caller left out. */
  datatype Option<+T> = None | Some(value: T) {

    /** The carried value, or `default` when there is none. */
    function GetOr(default: T): T
    {
      match this
      case Some(v) => v
      case None => default
    }
  }

  /** The outcome of an operation that may throw: `Ok` carries the return
      value, `Err` the error the service would throw. */
  datatype Result<+T, +E> = Ok(value: T) | Err(error: E)
}
