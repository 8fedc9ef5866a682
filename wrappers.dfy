/** Option and Result types shared by every module, and the exceptions the
    PHP code throws, as values. */
module Wrappers {

  datatype Option<+T> = None | Some(value: T)

  /** The exception classes the modelled code raises or lets through. */
  datatype Exception =
    | InvalidArgumentException(message: string)
    | RuntimeException(message: string)
    | PDOException(message: string)
    | TypeError(message: string)
    /** PHP's `Error`, raised for instance by a call to a method that does not exist. */
    | Error(message: string)

  /** A PHP call either returns a value or throws. */
  datatype Result<+T> = Ok(value: T) | Threw(error: Exception)

  /** The same, for calls that return nothing (`void`). */
  datatype Status = Done | Raised(error: Exception)
}
