/** Failure-compatible result types shared by the modules of this model. */
module Wrappers {

  datatype Option<+T> = None | Some(value: T)

  /** Either a value or the error that the Java code would have thrown. */
  datatype Result<+R, +E> = Success(value: R) | Failure(error: E) {

    predicate IsFailure() {
      Failure?
    }

    function PropagateFailure<U>(): Result<U, E>
      requires Failure?
    {
      Failure(error)
    }

    function Extract(): R
      requires Success?
    {
      value
    }
  }
}
