/** Optional values, standing for Go's nil pointers and nil errors, and
    results that carry either a value or an error message. */
module Wrappers {
  datatype Option<+T> = None | Some(value: T)

  datatype Result<+T> = Success(value: T) | Failure(error: string)
}
