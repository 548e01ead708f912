/** Failure-compatible result types shared by the whole model. */
module Wrappers {

  /** A value that may be absent (PHP's `false`/`null` returns). */
  datatype Option<+T> = None | Some(value: T)

  /** Either a computed value or the error the PHP code signals instead. */
  datatype Result<+T, +E> = Success(value: T) | Failure(error: E) {

    predicate IsFailure() {
      Failure?
    }

    function PropagateFailure<U>(): Result<U, E>
      requires Failure?
    {
      Failure(error)
    }

    function Extract(): T
      requires Success?
    {
      value
    }
  }
}
