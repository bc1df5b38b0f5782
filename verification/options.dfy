/** Optional values and error results used throughout the model. */
module Options {

  /** A value that may be absent, as Python's `None`. */
  datatype Option<+T> = None | Some(value: T) {

    /** The carried value, or `default` when absent. */
    function GetOr(default: T): T {
      match this
      case Some(v) => v
      case None => default
    }
  }

  /** The outcome of an operation that can abort with an error. */
  datatype Result<+T, +E> = Ok(value: T) | Err(error: E)
}
