/** Values shared by every module: an optional value, the exceptions the
    pipeline can raise, and a result that carries either a value or one of
    those exceptions. */
module Base {

  datatype Option<+T> = None | Some(value: T)

  /** The Python exceptions the modelled code raises. */
  datatype Error =
    | ValueError(detail: string)  // the rejected literal, or the message raised
    | KeyError(key: int)          // dictionary lookup of a missing window
    | IndexError                  // list index out of range

  datatype Result<+T> = Ok(value: T) | Err(error: Error)
}
