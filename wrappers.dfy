/** Optional values and results with an error, shared by the other modules. */
module Wrappers {

  /** A value that may be absent: TypeScript's `T | null` or an optional property. */
  datatype Option<+T> = None | Some(value: T)

  /** The outcome of an operation that can throw: a value, or the error it raises. */
  datatype Result<+T, +E> = Ok(value: T) | Err(error: E)
}
