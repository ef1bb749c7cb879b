/** Failure-carrying results: the model's stand-in for Python's None and raised exceptions. */
module Wrappers {

  /** A value that may be absent (Python's `None`). */
  datatype Option<+T> = None | Some(value: T)

  /** Either a value or the exception that a Python call raises instead of returning. */
  datatype Result<+R, +E> = Success(value: R) | Failure(error: E) {
    predicate IsFailure() {
      Failure?
    }

    function PropagateFailure<U>(): Result<U, E>
      requires Failure?
    {
      Failure(error)
    }

    function Extract(): R
      requires Success?
    {
      value
    }
  }
}

/** The Python exception kinds the core raises, each with the message text it carries. */
module Errors {

  datatype Error =
    | TypeError(msg: string)
    | ValueError(msg: string)
    | KeyError(msg: string)
    | IndexError(msg: string)
}
