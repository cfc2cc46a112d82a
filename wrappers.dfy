/** Optional values and results that carry the message of a raised ValueError. */
module Wrappers {

  /** Python's `None` or a present value. */
  datatype Option<+T> = None | Some(value: T)

  /** A successful value, or the message of the ValueError the source raises. */
  datatype Result<+T> = Ok(value: T) | Err(message: string)
}
