/** How a handler ends: it commits, it returns an error, or it panics.
    The surrounding transaction keeps the writes of the first kind only. */
module Outcomes {

  datatype Outcome<+T, +E, +P> = Ok(value: T) | Fail(error: E) | Panic(reason: P) {
    predicate IsFailure() { !Ok? }

    function PropagateFailure<U>(): Outcome<U, E, P>
      requires IsFailure()
    {
      if Fail? then Fail(error) else Panic(reason)
    }

    function Extract(): T
      requires Ok?
    {
      value
    }
  }

  datatype Option<+T> = None | Some(value: T)

  /** How a parser ends. */
  datatype Result<+T, +E> = Success(value: T) | Failure(error: E) {
    predicate IsFailure() { Failure? }

    function PropagateFailure<U>(): Result<U, E>
      requires Failure?
    {
      Failure(error)
    }

    function Extract(): T
      requires Success?
    {
      value
    }
  }
}
