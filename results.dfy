/** Failure-compatible Option and Result types used by the row store model. */
module Results {

  datatype Option<+T> = None | Some(value: T)

  /** A computation that either yields a value or fails with an error, usable with `:-`. */
  datatype Result<+T, +E> = Success(value: T) | Failure(error: E) {

    predicate IsFailure() {
      Failure?
    }

    function PropagateFailure<U>(): Result<U, E>
      requires Failure?
    {
      Failure(error)
    }

    function Extract(): T
      requires Success?
    {
      value
    }
  }
}
