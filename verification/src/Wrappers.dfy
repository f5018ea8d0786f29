/** Result and option types, and the error values of the stack (crates/powerlink-rs/src/hal.rs). */
module Wrappers {

  datatype Option<+T> = None | Some(value: T)

  datatype Result<+T, +E> = Ok(value: T) | Err(error: E)

  /** The messages that the source attaches to a storage error, as values. */
  datatype StorageFault =
    | ReadOnlyObject
    | CountNotWritable
    | BadSignature
    | SubIndexZero
    | NoBackend
    | BackendFailure

  datatype Error =
    | BufferTooShort
    | InvalidEnumValue
    | ObjectNotFound
    | SubObjectNotFound
    | TypeMismatch
    | StorageError(fault: StorageFault)
    | ValidationError
    | PdoMapOverrun
    | ClientBusy
    | InvalidChannel
    | InvalidCommandPayload
}
