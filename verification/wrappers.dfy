/** Option and Result types used by the whole model. */
module Wrappers {
  datatype Option<T> = None | Some(value: T)

  /** A failing operation carries the reason it failed. */
  datatype Result<T> = Success(value: T) | Failure(error: string)
}
