/** Failure-compatible wrappers used in place of the source's exceptions. */
module Results {

  datatype Option<+T> = None | Some(value: T)

  /** The outcome of an operation that may throw: a value, or the kind of exception raised. */
  datatype Result<+T, +E> = Success(value: T) | Failure(error: E) {

    predicate IsFailure() {
      Failure?
    }

    function PropagateFailure<U>(): Result<U, E>
      requires Failure?
    {
      Failure(error)
    }

    function Extract(): T
      requires Success?
    {
      value
    }
  }
}
