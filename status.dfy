/** Status and error values shared by the boot-service and text models.
    The crate's status decoding (src/status.rs) is not part of this model:
    a firmware status is only SUCCESS or something else, and `?` on a failed
    call becomes an early return of `Err`. */
module Status {

  /** The raw status of a firmware call. Anything that is not SUCCESS,
      warnings included, is `NotSuccess`. */
  datatype Status = Success | NotSuccess(code: nat)

  /** Errors the core reports. `Aborted` is the one the core creates itself;
      every other error is passed through from the firmware unchanged. */
  datatype Error = Aborted | FirmwareError(code: nat)

  datatype Result<T> = Ok(value: T) | Err(error: Error)

  datatype Option<T> = None | Some(value: T)

  /** How a call of the modelled code ends: it returns a `Result`, it panics
      (`assert!`, an index out of bounds, ...), or it is still inside a loop
      the source does not bound when the model's fuel runs out. */
  datatype Outcome<T> = Returned(result: Result<T>) | Panicked | Running
}
