/** Option, Result and Outcome: the model's stand-ins for C# nullable values
    and for exceptions thrown out of a call. */
module Wrappers {

  /** A C# nullable value (`decimal?`, `string?`): `None` is `null`. */
  datatype Option<+T> = None | Some(value: T)

  /** A call that either returns a value or throws. */
  datatype Result<+R, +E> = Success(value: R) | Failure(error: E)

  /** A call that returns nothing and may throw. */
  datatype Outcome<+E> = Pass | Fail(error: E)
}
