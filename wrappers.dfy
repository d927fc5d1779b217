/** Optional values and results with an error, used for JavaScript's
    `undefined` and for exceptions caught by a handler. */
module Wrappers {

  datatype Option<+T> = None | Some(value: T)

  datatype Result<+T, +E> = Ok(value: T) | Err(error: E)
}
