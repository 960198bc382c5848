/** Optional values and results with an error reason: the model's stand-ins for the
    source's `undefined`/`null` returns and for exceptions that a caller catches. */
module Results {

  datatype Option<+T> = None | Some(value: T)

  datatype Result<+T, +E> = Ok(value: T) | Err(error: E) {

    /** Forgets the error reason, as a `catch` block that returns `null` does. */
    function ToOption(): Option<T> {
      match this
      case Ok(v) => Some(v)
      case Err(_) => None
    }
  }
}
