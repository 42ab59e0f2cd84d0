/** Optional values and results with a message, used for JavaScript's `undefined` and for error returns. */
module Wrappers {

  datatype Option<+T> = None | Some(value: T)

  /** A computation that either yields a value or fails with a human-readable message. */
  datatype Result<+T> = Ok(value: T) | Fail(message: string)
}
