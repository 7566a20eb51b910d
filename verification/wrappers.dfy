/** Failure-compatible result type used in place of the source's `sys.exit` on error. */
module Wrappers {

  /** Either a computed value or the error that aborted the computation. */
  datatype Result<+R, +E> = Success(value: R) | Failure(error: E) {

    predicate IsFailure() {
      Failure?
    }

    function PropagateFailure<U>(): Result<U, E>
      requires Failure?
    {
      Failure(error)
    }

    function Extract(): R
      requires Success?
    {
      value
    }

    /** The value, or `default` on failure. */
    function GetOr(default: R): R
    {
      if Success? then value else default
    }
  }
}
