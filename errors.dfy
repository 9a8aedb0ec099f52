/// The driver's error values and the abstract outcomes of USB transfers.
module Errors {

  /** An error reported by the USB library; its detail is not modelled. */
  datatype UsbFailure = UsbFailure(code: int)

  /** The driver's errors, generic in the media type carried by `InvalidMedia`. */
  datatype Error<M> =
    | DeviceOffline
    | MissingEndpoint
    | UsbError(cause: UsbFailure)
    | InvalidResponse(transferred: nat)
    | ReadStatusTimeout
    | InvalidMedia(expected: M)

  datatype Result<T, M> = Ok(value: T) | Err(error: Error<M>)

  /** Outcome of a query to the USB library that may fail. */
  datatype Probe<T> = Got(value: T) | ProbeFailed(cause: UsbFailure)

  /** Outcome of one bulk write: the byte count the device accepted, or a failure. */
  datatype WriteOutcome = Wrote(count: nat) | WriteFailed(cause: UsbFailure)

  /** Outcome of one bulk read: the bytes received, or a failure. */
  datatype ReadOutcome = Received(data: seq<bv8>) | ReadFailed(cause: UsbFailure)
}
