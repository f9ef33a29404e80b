/** Optional values and the outcome of an operation that may raise. */
module Wrappers {

  /** Python's `Optional[T]`: either `None` or a present value. */
  datatype Option<+T> = None | Some(value: T)

  /** The Python exception classes raised by the modelled code. */
  datatype ErrorKind = ValueError | TypeError

  /** A return value, or the exception (class and message) that was raised instead. */
  datatype Result<+T> = Ok(value: T) | Err(kind: ErrorKind, message: string)
}
