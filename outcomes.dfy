/** Java's null references and unchecked exceptions, as values. */
module Outcomes {

  /** The unchecked exceptions the modelled classes throw. */
  datatype Exception =
    | NullPointer
    | NoSuchElement
    | UnsupportedOperation
    | IndexOutOfBounds
    | IllegalArgument
    | Arithmetic

  /** A Java reference that may be null: `None` stands for null. */
  datatype Option<T> = None | Some(value: T)

  /** The result of a Java method that returns a value or throws. */
  datatype Result<T> = Ok(value: T) | Throws(error: Exception)

  /** The result of a `void` Java method: it returns normally or throws. */
  datatype Outcome = Normal | Raised(error: Exception)
}
