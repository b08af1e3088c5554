/** Outcomes of fallible operations. */
module Errors {
  datatype Option<+T> = None | Some(value: T)

  /** The error kinds of the source that the model can raise; messages are dropped. */
  datatype Error = Io | WalCorruption | Storage | KeyNotFound | Protocol | Overflow

  datatype Result<+T> = Ok(value: T) | Err(error: Error)
}
