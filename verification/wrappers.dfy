/** Optional values (SQL NULL, a missing form field, `undefined`) and results that can fail. */
module Wrappers {

  datatype Option<+T> = None | Some(value: T)

  /** A value, or the message of the error the source throws or returns instead. */
  datatype Result<+T> = Ok(value: T) | Err(error: string)
}
