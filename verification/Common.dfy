// Small value types shared by every part of the model.
module Common {

  datatype Option<+T> = None | Some(value: T)

  datatype Result<+T, +E> = Ok(value: T) | Err(error: E)

  /** An administrator as Identity names one: the source-qualified subject is
      the identity, the username only its current spelling. */
  datatype Principal = Principal(source: string, subject: string, username: string)
}
