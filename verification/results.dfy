/** Success/failure and optional values used throughout the model. */
module Results {

  /** The outcome of a step that can fail with an error of type E. */
  datatype Result<+T, +E> = Ok(value: T) | Err(error: E)

  /** A value that may be absent. */
  datatype Option<+T> = None | Some(value: T) {

    /** The carried value when there is one, else the fallback. */
    function ValueOr(fallback: T): (r: T) {
      if Some? then value else fallback
    }
  }
}
