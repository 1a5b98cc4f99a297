/** The outcome of a call in the codec or the storage engine: `Result` stands
    for a Python call that either returns a value or raises, and `:-` passes
    the raised error on to the caller. */
module Wrappers {

  /** Either a value or the error a call raised; usable with `:-`. */
  datatype Result<+T, +E> = Success(value: T) | Failure(error: E) {

    predicate IsFailure() {
      Failure?
    }

    function PropagateFailure<U>(): Result<U, E>
      requires Failure?
    {
      Failure(error)
    }

    function Extract(): T
      requires Success?
    {
      value
    }
  }
}
