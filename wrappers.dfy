/** Optional values (Python's `None`) and the outcome of an operation that can fail. */
module Wrappers {

  datatype Option<+T> = None | Some(value: T)

  /** The value a conversion produced, or the ValueError it raised. */
  datatype Result<+T> = Ok(value: T) | ValueError
}
