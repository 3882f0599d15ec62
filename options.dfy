/** Failure-carrying values shared by the assembler modules. */
module Options {

  /** A value that may be missing, such as the result of a parse that can fail. */
  datatype Option<+T> = None | Some(value: T)

  /** A computed value, or the reason it could not be computed. */
  datatype Result<+T, +E> = Ok(value: T) | Err(error: E)
}
