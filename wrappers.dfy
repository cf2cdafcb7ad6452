/** The `Option` and `Result` datatypes shared by the other modules. */
module Wrappers {

  /** A value that may be missing: `parseInt` returning NaN, an option the user did not pass. */
  datatype Option<+T> = None | Some(value: T)

  /** The outcome of an operation that can fail with an error the caller reports. */
  datatype Result<+T, +E> = Ok(value: T) | Err(error: E)
}
