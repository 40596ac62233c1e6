/** Optional values: a JavaScript `undefined` / `NaN` / failed lookup is `None`. */
module Options {

  datatype Option<+T> = None | Some(value: T) {

    /** The value, or `default` when there is none (JavaScript's `x ?? default`). */
    function GetOr(default: T): T {
      match this
      case Some(v) => v
      case None => default
    }
  }

  /** Success carrying a value, or failure carrying the message of the error that was thrown. */
  datatype Result<+R> = Ok(value: R) | Failed(message: string)
}
