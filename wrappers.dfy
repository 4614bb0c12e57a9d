/** Optional values (JavaScript `null`/`undefined`) and handler outcomes. */
module Wrappers {

  datatype Option<+T> = None | Some(value: T)

  /** The outcome of a request handler: the JSON body on success, or the message of a
      400 response. */
  datatype Result<+T, +E> = Ok(value: T) | Err(error: E)
}
