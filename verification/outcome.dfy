/** Failure-compatible results for the engine's argument checks.
    The C# code throws `ArgumentOutOfRangeException(nameof(x))`; here such a throw
    is the value `Err(ArgumentOutOfRange("x"))`. */
module Outcome {

  /** The only exception the core throws, with the offending parameter's name. */
  datatype Error = ArgumentOutOfRange(paramName: string)

  datatype Result<+T> = Ok(value: T) | Err(error: Error) {

    predicate IsFailure() {
      Err?
    }

    function PropagateFailure<U>(): Result<U>
      requires Err?
    {
      Err(error)
    }

    function Extract(): T
      requires Ok?
    {
      value
    }
  }

  /** A lookup result: `Some(v)` for a found key, `None` where the C# code returns false with a default value. */
  datatype Option<+T> = None | Some(value: T) {

    /** C#'s `??`: the value if there is one, else `default`. */
    function GetOr(default: T): T {
      match this
      case Some(v) => v
      case None => default
    }
  }
}
