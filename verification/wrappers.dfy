/** Failure-compatible result type for the partial operations of the vector
    types (the bounds-checked indexer). */
module Wrappers {

  /** The exception kinds the modelled members can raise. */
  datatype Error = ArgumentOutOfRange(paramName: string)

  /** Either the value an operation computes or the exception it throws. */
  datatype Result<+R> = Success(value: R) | Failure(error: Error) {

    predicate IsFailure() {
      Failure?
    }

    function PropagateFailure<U>(): Result<U>
      requires Failure?
    {
      Failure(error)
    }

    function Extract(): R
      requires Success?
    {
      value
    }
  }
}
