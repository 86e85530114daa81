/** Failure-carrying results shared by the storage layer, the service and the aggregator. */
module Errors {

  datatype Option<T> = None | Some(value: T)

  /** The failures the model can produce. */
  datatype Error =
    | VersionError(onDisk: nat)   // the database on disk is newer than the schema this code opens
    | NotAFunction(name: string)  // a call to a method the callee does not define (a TypeError)

  /** A value or the failure that prevented it (a rejected promise). */
  datatype Result<T> = Ok(value: T) | Err(error: Error)

  /** A promise of nothing: it resolves or it rejects. */
  datatype Outcome = Pass | Fail(error: Error)
}
