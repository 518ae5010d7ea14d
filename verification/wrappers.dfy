/** Option and Result, used for the partial decoders and for the validator's verdict. */
module Wrappers {

  datatype Option<+T> = None | Some(value: T)

  /** Either an accepted value or the reason it was rejected. */
  datatype Result<+R, +E> = Success(value: R) | Failure(error: E)
}
