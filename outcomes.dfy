/**
 * The exceptions the pipeline raises, and the optional values it passes
 * around, as plain datatypes. A Python `raise` becomes a `Failure`.
 */
module Outcomes {

  /** The Python exception classes the core raises or lets propagate. */
  datatype Error =
    | ValueError(message: string)
    | FileNotFoundError(message: string)
      /** a failed call to the remote embedding or chat service */
    | ServiceError(message: string)

  datatype Result<+T> = Success(value: T) | Failure(error: Error) {
    predicate IsFailure() { Failure? }
    function PropagateFailure<U>(): Result<U>
      requires Failure?
    {
      Failure(error)
    }
    function Extract(): T
      requires Success?
    {
      value
    }
  }

  /** Python's `None` or a value. */
  datatype Option<+T> = None | Some(value: T)
}
