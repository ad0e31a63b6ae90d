/** Optional values and success/failure results shared by the note store. */
module Wrappers {

  /** A value that may be missing, as `Array.prototype.find` returns a note or `undefined`. */
  datatype Option<+T> = None | Some(value: T)

  /** The outcome of a request handler: a value, or the error it answers with. */
  datatype Result<+T, +E> = Ok(value: T) | Err(error: E)
}
