/** Optional values and the exceptions the Stringy value type can throw. */
module Failures {

  /** PHP's `int|false` and `null`-able results: `None` stands for `false` or `null`. */
  datatype Option<+T> = None | Some(value: T)

  /** The exceptions thrown by the value type, one constructor per kind. */
  datatype Failure =
    | InvalidArgument   // \InvalidArgumentException: bad constructor input, unknown pad type
    | OutOfBounds       // \OutOfBoundsException: offsetGet beyond either end
    | Immutable         // \Exception thrown by offsetSet / offsetUnset

  /** A value, or the exception the call throws instead. */
  datatype Result<+T> = Ok(value: T) | Err(error: Failure)

  function Min(a: int, b: int): int { if a <= b then a else b }

  function Max(a: int, b: int): int { if a >= b then a else b }
}
