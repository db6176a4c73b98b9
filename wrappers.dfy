/** Option and Result values: the model's stand-ins for Python's `None` and
    for an exception raised out of a call. */
module Wrappers {

  datatype Option<+T> = None | Some(value: T)

  /** `Failure(e)` is "the call raised `e`"; `Success(v)` is "the call returned `v`". */
  datatype Result<+R, +E> = Success(value: R) | Failure(error: E)
}
