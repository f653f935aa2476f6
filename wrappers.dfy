/** Option, Result and Outcome: the model's stand-ins for JavaScript's `null`/`undefined`
    and for a thrown `TypeError`. All three work with Dafny's `:-`. */
module Wrappers {

  /** `None` plays both `null` and `undefined`. */
  datatype Option<+T> = None | Some(value: T) {
    predicate IsFailure() { None? }

    function PropagateFailure<U>(): Option<U>
      requires None?
    {
      None
    }

    function Extract(): T
      requires Some?
    {
      value
    }
  }

  /** A computation that either returns a value or throws. */
  datatype Result<+R, +E> = Success(value: R) | Failure(error: E) {
    predicate IsFailure() { Failure? }

    function PropagateFailure<U>(): Result<U, E>
      requires Failure?
    {
      Failure(error)
    }

    function Extract(): R
      requires Success?
    {
      value
    }
  }

  /** A computation that either returns normally (with no value) or throws; inside a
      function returning a `Result`, `:- o; e` propagates the failure. */
  datatype Outcome<+E> = Pass | Fail(error: E) {
    predicate IsFailure() { Fail? }

    function PropagateFailure<U>(): Result<U, E>
      requires Fail?
    {
      Failure(error)
    }
  }
}
