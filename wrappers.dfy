/** Optional values and results with an error, used for the source's "maybe a number"
    and "throws" cases. */
module Wrappers {

  datatype Option<+T> = None | Some(value: T)

  datatype Result<+T, +E> = Ok(value: T) | Err(error: E)
}
