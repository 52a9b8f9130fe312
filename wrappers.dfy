/** Optional values, standing for the nullable references and nullable strings of the game code. */
module Wrappers {

  datatype Option<+T> = None | Some(value: T)

  /** The exceptions the modelled code can raise and does not catch. */
  datatype Exception = IndexOutOfRange

  datatype Result<+T> = Success(value: T) | Failure(error: Exception)
}
