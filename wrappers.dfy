/** Failure-carrying results and the Java exceptions the modelled code throws. */
module Wrappers {

  datatype Option<+T> = None | Some(value: T)

  datatype Result<+R, +E> = Success(value: R) | Failure(error: E)

  /** The outcome of a builder call that returns `this` or throws. */
  datatype Outcome<+E> = Pass | Fail(error: E)

  /** The unchecked exceptions thrown by `checkArgument` and `checkNotNull`. */
  datatype JavaException =
    | IllegalArgument(message: string)
    | NullPointer(message: string)
}
