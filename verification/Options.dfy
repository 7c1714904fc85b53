/** The optional value used throughout the model for Python's `None`, the result of
    a call that may raise, and the result of reading a prefix of a text. */
module Options {
  datatype Option<+T> = None | Some(value: T)

  datatype Result<+T, +E> = Ok(value: T) | Err(error: E)

  /** Something read from the front of a text, and what is left of it. */
  datatype Read<+T> = Fail | Got(value: T, rest: string)
}
