/** Outcome types shared by the model: a possibly absent value (JavaScript's
    null/undefined) and the outcome of an operation that can throw. */
module Results {

  /** A value that may be missing: `None` stands for null or undefined. */
  datatype Option<+T> = None | Some(value: T)

  /** The outcome of an operation that either returns a value or throws. */
  datatype Result<+T, +E> = Success(value: T) | Failure(error: E)
}
