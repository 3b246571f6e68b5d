/** The slice of the generic driver framework the AHCI adapter answers to:
    its error kinds, its result type and its device classification. */
module DriverBase {

  /** Error kinds a driver operation may report. */
  datatype DevError =
    | AlreadyExists
    | Again
    | BadState
    | InvalidParam
    | Io
    | NoMemory
    | ResourceBusy
    | Unsupported

  datatype Result<T> = Ok(value: T) | Err(error: DevError)

  /** Outcome of an operation that produces no value. */
  type DevResult = Result<()>

  /** Classes of device a driver may declare itself to be. */
  datatype DeviceType = Block | Char | Net | Display
}
