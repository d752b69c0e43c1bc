/** Option and Result, for the absent values and the raised exceptions of the modelled code. */
module Wrappers {

  datatype Option<+T> = None | Some(value: T)

  /** `Failure` stands for a Python exception that reaches the caller; its text names the exception. */
  datatype Result<+T> = Success(value: T) | Failure(error: string)
}
