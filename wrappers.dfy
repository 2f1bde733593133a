/** Optional values and results with an error message, used wherever the
    source returns `null` or throws an `Error`. */
module Wrappers {

  datatype Option<+T> = None | Some(value: T)

  /** `Err(message)` stands for `throw new Error(message)`. */
  datatype Result<+T> = Ok(value: T) | Err(message: string)
}
