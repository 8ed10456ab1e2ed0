/** Failure-carrying values shared by every module of the model: a Python
    `None`/JavaScript `null` becomes `None`, a raised exception becomes `Err`. */
module Base {

  datatype Option<+T> = None | Some(value: T)

  datatype Result<+T, +E> = Ok(value: T) | Err(error: E)

  /** A byte of a Python `bytes` object or of a browser `File`. */
  type Byte = b: int | 0 <= b < 256

  type Bytes = seq<Byte>
}
