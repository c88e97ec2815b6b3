/** Small value types shared by the model: optional values, results with an
    error reason, and bytes. */
module Common {

  datatype Option<+T> = None | Some(value: T)

  datatype Result<+T, +E> = Ok(value: T) | Err(error: E)

  /** An octet of an uploaded file or of an encoded image. */
  newtype byte = x: int | 0 <= x < 256
}
