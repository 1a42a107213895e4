/** Optional values (a JSON field or argument that may be absent) and the
    outcome of a script that may throw. */
module Wrappers {

  datatype Option<+T> = None | Some(value: T)

  datatype Result<+T, +E> = Ok(value: T) | Err(error: E)
}
