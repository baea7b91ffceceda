/** Failure-compatible wrappers shared by every module of the model. */
module Wrappers {

  /** Ruby's `nil` or a present value. */
  datatype Option<+T> = None | Some(value: T)

  /** A value, or the exception a Ruby/JavaScript call raises instead. */
  datatype Result<+R, +E> = Success(value: R) | Failure(error: E) {
    predicate IsFailure() { Failure? }

    function PropagateFailure<U>(): Result<U, E>
      requires Failure?
    {
      Failure(error)
    }

    function Extract(): R
      requires Success?
    {
      value
    }
  }
}
