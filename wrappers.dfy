/** Option and Result: the model's stand-ins for null pointers and thrown exceptions. */
module Wrappers {

  datatype Option<+T> = None | Some(value: T)

  /** `Failure(e)` stands for an exception of kind `e` escaping the call. */
  datatype Result<+R, +E> = Success(value: R) | Failure(error: E)
}
