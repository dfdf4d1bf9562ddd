/** Failure-compatible wrappers used throughout the model: `Option` stands
    for a Java reference that may be null, `Result` for a call that may throw. */
module Wrappers {

  datatype Option<+T> = None | Some(value: T) {
    predicate IsFailure() { None? }

    function PropagateFailure<U>(): Option<U>
      requires None?
    {
      None
    }

    function Extract(): T
      requires Some?
    {
      value
    }
  }

  /** The exceptions the modelled code raises, by Java class. */
  datatype Error =
    | NullPointer
    | IndexOutOfBounds
    | NegativeArraySize
    | BufferOverflow
    | BufferUnderflow
    | IllegalArgument
    | UnFormatMessage
    | Unconnected
    | NoClientKey
    | EmptyClientKey
    | IOFailure

  datatype Result<+R> = Success(value: R) | Failure(error: Error) {
    predicate IsFailure() { Failure? }

    function PropagateFailure<U>(): Result<U>
      requires Failure?
    {
      Failure(error)
    }

    function Extract(): R
      requires Success?
    {
      value
    }
  }
}
