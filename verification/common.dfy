/** The optional value, the success-or-error value and the byte type shared by every module. */
module Common {

  /** An optional value: C#'s nullable (`int?`, `long?`, a `null` string). */
  datatype Option<+T> = None | Some(value: T)

  /** The value of an operation that may throw: `Err` carries what was thrown. */
  datatype Result<+T, +E> = Ok(value: T) | Err(error: E)

  /** One octet of a request or response body. */
  newtype byte = x: int | 0 <= x < 256
}
