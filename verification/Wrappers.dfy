/** Optional values and results that may be errors. */
module Wrappers {

  datatype Option<+T> = None | Some(value: T)

  /** Err stands for an exception; the message is the kind of failure. */
  datatype Result<+T> = Ok(value: T) | Err(message: string)
}
