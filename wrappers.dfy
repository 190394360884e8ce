/** Failure-compatible wrappers used to model the exceptions the pipeline raises. */
module Wrappers {

  datatype Option<+T> = None | Some(value: T)

  /** A computation that yields a value or the error that aborted it. */
  datatype Result<+T, +E> = Success(value: T) | Failure(error: E) {
    predicate IsFailure() {
      Failure?
    }

    function PropagateFailure<U>(): Result<U, E>
      requires Failure?
    {
      Failure(error)
    }

    function Extract(): T
      requires Success?
    {
      value
    }
  }

  /** An operation that changes state and either completes or fails. */
  datatype Outcome<+E> = Pass | Fail(error: E)
}
