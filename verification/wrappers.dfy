/** Failure-compatible result types used by every stage of loading a book. */
module Wrappers {

  datatype Option<+T> = None | Some(value: T)

  /** Either the value an operation produced or the reason it stopped. */
  datatype Result<+T, +E> = Success(value: T) | Failure(error: E) {

    predicate IsFailure() {
      Failure?
    }

    function PropagateFailure<U>(): Result<U, E>
      requires Failure?
    {
      Failure(error)
    }

    function Extract(): T
      requires Success?
    {
      value
    }
  }
}
