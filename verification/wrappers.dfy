/** Failure-compatible wrappers shared by every module of the love chest model. */
module Wrappers {

  /** A value that may be absent: JavaScript's `null` for a missing storage item. */
  datatype Option<+T> = None | Some(value: T)

  /** The outcome of a call that may throw: the returned value or the thrown error. */
  datatype Result<+R, +E> = Success(value: R) | Failure(error: E) {
    predicate IsFailure() { Failure? }

    function PropagateFailure<U>(): Result<U, E>
      requires Failure?
    {
      Failure(error)
    }

    function Extract(): R
      requires Success?
    {
      value
    }
  }
}
