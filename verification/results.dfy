/** Failure-carrying values: the model's stand-in for the exceptions the
    poker library throws and for lookups that may come back empty. */
module Results {

  /** The outcome of an operation that either completes with a value or
      fails with an error (where the library would throw). */
  datatype Result<+T, +E> = Ok(value: T) | Err(error: E)

  /** A value that may be absent. */
  datatype Option<+T> = None | Some(value: T)
}
