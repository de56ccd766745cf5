/** Failure-compatible wrappers shared by every module of the model.

    The original program signals every failure with a Go panic. Here a panic is
    the `Panic` error carrying the panic message, and the hardening bound on the
    fixed-point template loop adds one more error kind, `DidNotConverge`. */
module Wrappers {

  /** What went wrong: a panic of the original program, or an exhausted
      iteration bound that the original program does not have. */
  datatype Error = Panic(message: string) | DidNotConverge

  /** The outcome of an operation that may panic. */
  datatype Result<+T> = Success(value: T) | Failure(error: Error) {

    predicate IsFailure() {
      Failure?
    }

    function PropagateFailure<U>(): Result<U>
      requires Failure?
    {
      Failure(error)
    }

    function Extract(): T
      requires Success?
    {
      value
    }
  }

  /** A plain optional value, used for internal parse results. */
  datatype Option<+T> = None | Some(value: T)
}
