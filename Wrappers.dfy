/** Option and Result values used for Python's `None` returns and raised exceptions. */
module Wrappers {

  datatype Option<+T> = None | Some(value: T)

  /** `Failure` stands for an exception the source lets propagate to its caller. */
  datatype Result<+T> = Ok(value: T) | Failure(error: string)
}
