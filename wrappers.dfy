/** Optional values and results. A `Result` that failed carries the message the
    source rejects its promise with. */
module Wrappers {

  datatype Option<+T> = None | Some(value: T)

  datatype Result<+T> = Ok(value: T) | Err(error: string)
}
