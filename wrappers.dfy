/** Values that stand for Java's `null` results and for the exceptions the
    list and the cache can throw. */
module Wrappers {

  /** `None` is the `null` a Java method returns for "nothing there". */
  datatype Option<+T> = None | Some(value: T)

  /** The unchecked exceptions thrown by the modelled code. */
  datatype Exception =
    | IndexOutOfBounds
    | NoSuchElement
    | IllegalArgument
    | ConcurrentModification
    | NullPointer

  /** The outcome of a Java method that returns a value or throws. */
  datatype Result<+T> = Ok(value: T) | Err(exc: Exception)

  /** The outcome of a `void` Java method that may throw. */
  datatype Outcome = Pass | Fail(exc: Exception)
}
