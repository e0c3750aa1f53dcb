/**
 * The exceptions of the javax.usb API that the modelled code throws or records.
 * Only their identity matters here: messages and stack traces are not modelled.
 */
module UsbErrors {

  /** The causes a UsbPipe reports, one per USB_PIPE_ERR_* code of UsbConst. */
  datatype PipeErrorKind =
    | NotClaimed
    | ClaimedAccessDenied
    | NotOpenPipe
    | InactivePipe
    | ImpOpenFailed
    | NoBandwidth
    | Invalid
    | NoMemory
    | Aborted
    | TemporaryFailure
    | ShortPacket
    | Interrupted
    | IoError
    | Halted
    | Timeout
    | InProgress
    | Unknown

  /** javax.usb.UsbException: the checked exception recorded on a UsbIrp. */
  datatype UsbException = UsbPipeException(kind: PipeErrorKind)

  /** An exception a modelled method throws at its call site. */
  datatype Exception =
    | IllegalArgumentException
    | NotOpenException
    | NotActiveException
    | UsbRuntimeException
    | ConcurrentModificationException
    | StringIndexOutOfBoundsException
    | NullDereference  // Java's exception for reading through a null reference
    | Usb(cause: UsbException)
}
