/** Optional values and results: the model's stand-in for Python's `None`
    and for exceptions that the resolver raises or catches. */
module Wrappers {

  datatype Option<+T> = None | Some(value: T)

  datatype Result<+T, +E> = Ok(value: T) | Err(error: E)
}
