/** Failure-compatible wrappers and the Java exceptions that the containers and the maze raise.
    `Option.None` stands for a Java `null` argument or result. */
module Errores {

  /** The unchecked exceptions thrown by the modelled code. */
  datatype Excepcion =
    | IllegalArgumentException
    | NoSuchElementException
    | IndexOutOfBoundsException
    | NullPointerException

  datatype Option<T> = None | Some(value: T)

  /** The value returned by a Java method that either returns normally or throws. */
  datatype Result<T> = Ok(value: T) | Err(error: Excepcion)

  /** The outcome of a Java `void` method that may throw. */
  datatype Outcome = Pass | Fail(error: Excepcion)
}
