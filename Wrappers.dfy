/** Java's nullable references and the unchecked exception the modelled code can raise. */
module Wrappers {

  /** A reference that may be null: None stands for null. */
  datatype Option<+T> = None | Some(value: T)

  /** The unchecked exceptions that the modelled operations can throw. */
  datatype JavaException = NullPointerException

  /** The outcome of a call that either returns a value or throws. */
  datatype Result<+T> = Ok(value: T) | Err(error: JavaException)
}
