/** Option and result types shared by the modules of this model. */
module Wrappers {

  /** A value that may be absent (a regex that did not match, a field never written). */
  datatype Option<+T> = None | Some(value: T)

  /** The outcome of an operation that the source ends by throwing an exception. */
  datatype Result<+T> = Ok(value: T) | Err(message: string)
}
