/** Failure-carrying results for the exceptions the multiblock code throws on purpose. */
module Wrappers {

  datatype Option<+T> = None | Some(value: T)

  /** The Java exceptions raised by the core's own guards. */
  datatype JavaException =
    | IllegalArgument(message: string)
    | IllegalState(message: string)
    | NullPointer

  /** A value, or the exception thrown instead of returning it. */
  datatype Result<+T> = Ok(value: T) | Err(error: JavaException)

  /** A `void` call that either returns normally or throws. */
  datatype Outcome = Pass | Fail(error: JavaException)
}
