/** Optional values and results with an error, used for the attribute that may be
    missing on an image element and for the ways composing a document can fail. */
module Wrappers {

  datatype Option<+T> = None | Some(value: T)

  datatype Result<+T, +E> = Ok(value: T) | Err(error: E)
}
