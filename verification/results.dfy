/** Failure-compatible wrappers used throughout the model: a thrown JavaScript
    error becomes a `Failure`, a normal return a `Success`. */
module Results {

  /** A value that may be missing, as `undefined` is in the source. */
  datatype Option<+T> = None | Some(value: T)

  /** The outcome of a step that may throw. */
  datatype Result<+T, +E> = Success(value: T) | Failure(error: E) {

    predicate IsFailure() {
      Failure?
    }

    function PropagateFailure<U>(): Result<U, E>
      requires Failure?
    {
      Failure(error)
    }

    function Extract(): T
      requires Success?
    {
      value
    }
  }
}
