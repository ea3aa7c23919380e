/** Values shared by every part of the static-file core: optional values,
    results carrying a pingora error type, and bytes. */
module Common {

  /** An unsigned byte, as in Rust's `u8`. */
  newtype u8 = x: int | 0 <= x < 256

  datatype Option<+T> = None | Some(value: T)

  /** The pingora error types the core raises. `NoAccess` is `ERR_NO_ACCESS`
      (src/open_file.rs), `FileRead` is `ERR_FILE_READ` (src/body.rs); every other
      pingora error type is folded into `OtherError`, named by its string. */
  datatype ErrorType = NoAccess | FileRead | OtherError(name: string)

  /** `pingora::Result<T>`: a value, or an error of some error type. */
  datatype Result<+T> = Ok(value: T) | Err(error: ErrorType)
}
