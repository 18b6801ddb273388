/** Failure-compatible result types shared by the model: an optional value for
    the "no selection" outcome, a pass/fail outcome for the `check` protocol and
    a value-or-error result for operations that may raise. */
module Wrappers {

  /** A present value or the explicit "none" sentinel. */
  datatype Option<+T> = None | Some(value: T)

  /** Either the check passed, or it failed with an error value. */
  datatype Outcome<+E> = Pass | Fail(error: E)

  /** Either a value, or the error the operation raised. */
  datatype Result<+R, +E> = Success(value: R) | Failure(error: E)
}
