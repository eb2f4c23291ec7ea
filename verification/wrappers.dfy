/** Optional values and success-or-error results, used for nullable columns
    and for the `{ success, error }` replies of the remote content store. */
module Wrappers {

  datatype Option<+T> = None | Some(value: T)

  datatype Result<+T, +E> = Ok(value: T) | Err(error: E)
}
