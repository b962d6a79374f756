/** Results and optional values. */
module Wrappers {
  datatype Option<+T> = None | Some(value: T)

  datatype Error = EraseErr | ReadErr | WriteErr | KvNameErr | SavedFull | InitFailed

  datatype Result<+T> = Ok(value: T) | Err(error: Error)

  /** The outcome of an operation that returns no value. */
  datatype Outcome = Done | Failed(error: Error)
}
