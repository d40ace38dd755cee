/** Failure-compatible wrappers: the model's stand-ins for null results and thrown exceptions. */
module Wrappers {

  /** A value that may be absent (the C# `null` of a lookup that finds nothing). */
  datatype Option<T> = None | Some(value: T)

  /** A value or the error that was raised instead of producing it. */
  datatype Result<T, E> = Ok(value: T) | Err(error: E) {

    predicate IsFailure() {
      Err?
    }

    function PropagateFailure<U>(): Result<U, E>
      requires Err?
    {
      Err(error)
    }

    function Extract(): T
      requires Ok?
    {
      value
    }

    /** The value, or `default` when an error was raised. */
    function GetOr(default: T): T {
      if Ok? then value else default
    }

    /** Forgets the value, keeping only whether and how the operation failed. */
    function ToOutcome(): Outcome<E> {
      if Ok? then Pass else Fail(error)
    }
  }

  /** The outcome of an operation that returns nothing (`void`) but may throw. */
  datatype Outcome<E> = Pass | Fail(error: E)
}
