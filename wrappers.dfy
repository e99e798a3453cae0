/** Small value types shared by the whole model: a nullable value, the Java
    exceptions the modelled code can raise, and the outcome of an operation
    that either returns a value or throws. */
module Wrappers {

  /** A Java reference that may be null. */
  datatype Option<+T> = None | Some(value: T)

  /** The exception classes that the modelled operations throw or propagate.
      `ChangeThrew` stands for whatever a caller-supplied change callback throws. */
  datatype Exception =
    | NullPointer
    | IllegalArgument
    | IllegalState
    | Runtime
    | IndexOutOfBounds
    | ChangeThrew

  /** A call that returns a value or completes abruptly with an exception. */
  datatype Result<+T> = Ok(value: T) | Err(error: Exception)

  /** A call of a `void` method: it returns normally or throws. */
  datatype Status = Normal | Thrown(exception: Exception)
}
