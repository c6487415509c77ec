/** Option and Result values for the optional fields and for the error exits of the tool. */
module Wrappers {

  datatype Option<+T> = None | Some(value: T)

  /** Either a value, or the error that made the tool stop (an exception or an exit with status 1). */
  datatype Result<+T, +E> = Success(value: T) | Failure(error: E) {
    predicate IsFailure() {
      Failure?
    }

    function PropagateFailure<U>(): Result<U, E>
      requires Failure?
    {
      Failure(error)
    }

    function Extract(): T
      requires Success?
    {
      value
    }
  }
}
