/** The part of the driver framework the filter talks to, reduced to what its
    decisions depend on: a request's parameters, its input buffer and its
    IRP's system buffer, and a log of the calls the filter makes on it. The
    outcome of every call the framework can fail is an oracle: a value the
    caller passes in or the request carries. */
module Wdf {
  import opened KsWire

  /** `WDF_REQUEST_TYPE`: the device-control type the classifier tests for,
      the internal device-control type that shares its IOCTL codes, and every
      other type as `OtherType`. */
  datatype RequestType = DeviceControl | DeviceControlInternal | OtherType

  /** What `WdfRequestGetParameters` reports. `ioControlCode` is only
      meaningful for device-control requests. */
  datatype RequestParameters = RequestParameters(requestType: RequestType, ioControlCode: uint32)

  /** The caller's input buffer: its bytes, and the oracles for
      `WdfRequestRetrieveUnsafeUserInputBuffer` (its status, and whether it
      hands back a NULL pointer) and `WdfRequestProbeAndLockUserBufferForRead`. */
  datatype UserInputBuffer = UserInputBuffer(
    retrieveStatus: NtStatus, retrievesNull: bool, lockStatus: NtStatus, bytes: seq<byte>)

  /** The two ways the filter calls `WdfRequestSend`. */
  datatype SendMode = SendAndForget | WithCompletionRoutine

  /** A status `NT_SUCCESS` rejects. */
  type FailureStatus = s: NtStatus | s < 0 witness -1

  /** What the I/O target does with a send: takes the request, or refuses it
      synchronously with a failure status that `WdfRequestGetStatus` then reports. */
  datatype SendOutcome = Accepted | Rejected(status: FailureStatus)

  /** What `WdfRequestGetStatus` reports after a send made while it reported
      `status`: unchanged when the target took the request, the refusal's
      status otherwise. */
  function StatusAfterSend(status: NtStatus, outcome: SendOutcome): (r: NtStatus)
    ensures outcome.Rejected? ==> r == outcome.status && !NtSuccess(r)
    ensures outcome.Accepted? ==> r == status
  {
    if outcome.Accepted? then status else outcome.status
  }

  /** One call the filter makes on a request. */
  datatype Event =
    | Formatted                               // WdfRequestFormatRequestUsingCurrentType
    | CompletionRoutineSet                    // WdfRequestSetCompletionRoutine
    | Sent(mode: SendMode, accepted: bool)    // WdfRequestSend and its result
    | Completed(status: NtStatus)             // WdfRequestComplete

  /** A WDF request together with its underlying IRP. */
  class Request {
    const parameters: RequestParameters
    const input: UserInputBuffer
    /** `Irp->AssociatedIrp.SystemBuffer`; null when the IRP has none. */
    const systemBuffer: array?<byte>
    /** `Parameters.DeviceIoControl.OutputBufferLength` of the current stack location. */
    const outputBufferLength: uint32
    /** What `WdfRequestGetStatus` reports. */
    var status: NtStatus
    /** The format, set-completion-routine, send and complete calls the
        filter has made on this request, in order. */
    var events: seq<Event>

    /** A system buffer holds at least `OutputBufferLength` bytes. For a
        METHOD_NEITHER request such as `IOCTL_KS_PROPERTY` the I/O manager
        allocates no system buffer; the lower driver sets one itself, and the
        filter trusts it to be this large without checking. */
    predicate BufferFits() {
      systemBuffer != null ==> outputBufferLength <= systemBuffer.Length
    }

    constructor (parameters: RequestParameters, input: UserInputBuffer,
                 systemBuffer: array?<byte>, outputBufferLength: uint32)
      requires systemBuffer != null ==> outputBufferLength <= systemBuffer.Length
      ensures BufferFits()
      ensures this.parameters == parameters && this.input == input
      ensures this.systemBuffer == systemBuffer && this.outputBufferLength == outputBufferLength
      ensures status == STATUS_SUCCESS && events == []
    {
      this.parameters := parameters;
      this.input := input;
      this.systemBuffer := systemBuffer;
      this.outputBufferLength := outputBufferLength;
      status := STATUS_SUCCESS;
      events := [];
    }

    /** `WdfRequestSend`: true when the target took the request. */
    method Send(mode: SendMode, outcome: SendOutcome) returns (sent: bool)
      modifies this
      ensures sent == outcome.Accepted?
      ensures events == old(events) + [Sent(mode, sent)]
      ensures status == StatusAfterSend(old(status), outcome)
    {
      sent := outcome.Accepted?;
      events := events + [Sent(mode, sent)];
      if !sent {
        status := outcome.status;
      }
    }

    /** `WdfRequestGetStatus`. */
    method GetStatus() returns (s: NtStatus)
      ensures s == status
    {
      s := status;
    }

    /** `WdfRequestComplete`. */
    method Complete(s: NtStatus)
      modifies this
      ensures events == old(events) + [Completed(s)]
      ensures status == old(status)
    {
      events := events + [Completed(s)];
    }

    /** `WdfRequestFormatRequestUsingCurrentType`. */
    method FormatRequestUsingCurrentType()
      modifies this
      ensures events == old(events) + [Formatted]
      ensures status == old(status)
    {
      events := events + [Formatted];
    }

    /** `WdfRequestSetCompletionRoutine`. */
    method SetCompletionRoutine()
      modifies this
      ensures events == old(events) + [CompletionRoutineSet]
      ensures status == old(status)
    {
      events := events + [CompletionRoutineSet];
    }
  }
}
