/**
 * Option and Result, used for JavaScript's `null` / `-1` sentinels and for rejected saves.
 */
module Wrappers {
  datatype Option<+T> = None | Some(value: T)

  datatype Result<+R, +E> = Success(value: R) | Failure(error: E)

}
