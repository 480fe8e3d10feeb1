/** Failure and absence, as values. */
module Wrappers {

  datatype Option<+T> = None | Some(value: T)

  /** A value, or the message of the error that was thrown or returned. */
  datatype Result<+T> = Ok(value: T) | Err(error: string)

  /** A call to a remote service can throw although it took effect. */
  datatype Call = Succeeds | FailsUnapplied | FailsApplied {
    predicate Throws() { !Succeeds? }
    predicate Applies() { !FailsUnapplied? }
  }
}
