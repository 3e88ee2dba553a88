/** Optional values and results with an error message, used wherever the
    Python code returns None or lets an exception escape. */
module Wrappers {

  datatype Option<+T> = None | Some(value: T)

  /** `Err` stands for an exception that escapes the modelled function. */
  datatype Result<+T> = Ok(value: T) | Err(reason: string)
}
