/** Option and Result: the absent JavaScript property and the thrown Error. */
module Wrappers {

  datatype Option<+T> = None | Some(value: T)

  /** `Failure` carries the message of the Error the source throws. */
  datatype Result<+R> = Success(value: R) | Failure(error: string)
}
