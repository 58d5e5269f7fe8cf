/** The classifier `WinSoftVol_IsGetKsTopologyNodesPropertyRequest`: is this
    request a KS property GET of the topology node list? Every failure on the
    way answers "no", so an unreadable request is forwarded untouched. */
module Classifier {
  import opened KsWire
  import opened Wdf

  /** `WdfRequestRetrieveUnsafeUserInputBuffer(request, minimumRequiredLength,
      &buffer, NULL)`: its status and whether the pointer it returns is
      non-NULL. The framework refuses with `STATUS_BUFFER_TOO_SMALL` when the
      input buffer is shorter than the minimum; otherwise the oracle decides. */
  function RetrieveUnsafeUserInputBuffer(input: UserInputBuffer, minimumRequiredLength: nat)
    : (r: (NtStatus, bool))
    ensures NtSuccess(r.0) ==> |input.bytes| >= minimumRequiredLength
  {
    if |input.bytes| < minimumRequiredLength then (STATUS_BUFFER_TOO_SMALL, false)
    else (input.retrieveStatus, !input.retrievesNull)
  }

  /** `WdfRequestProbeAndLockUserBufferForRead` followed by `WdfMemoryGetBuffer`:
      the lock status, and the `length` bytes the locked memory exposes. */
  function ProbeAndLockUserBufferForRead(input: UserInputBuffer, length: nat)
    : (r: (NtStatus, seq<byte>))
    requires length <= |input.bytes|
    ensures |r.1| == length
  {
    (input.lockStatus, input.bytes[..length])
  }

  /** The target query: `Set == KSPROPSETID_Topology`, `Id ==
      KSPROPERTY_TOPOLOGY_NODES` and the GET bit set in `Flags`. */
  predicate IsTopologyNodesGet(p: KsProperty) {
    && p.setId == KSPROPSETID_TOPOLOGY
    && p.id == KSPROPERTY_TOPOLOGY_NODES
    && (p.flags as bv32) & KSPROPERTY_TYPE_GET != 0
  }

  predicate IsGetKsTopologyNodesPropertyRequest(parameters: RequestParameters, input: UserInputBuffer)
    ensures IsGetKsTopologyNodesPropertyRequest(parameters, input) ==>
      parameters == RequestParameters(DeviceControl, IOCTL_KS_PROPERTY)
  {
    if parameters.requestType != DeviceControl then false
    else if parameters.ioControlCode != IOCTL_KS_PROPERTY then false
    else
      var (retrieveStatus, nonNull) := RetrieveUnsafeUserInputBuffer(input, KSPROPERTY_SIZE);
      if !NtSuccess(retrieveStatus) || !nonNull then false
      else
        var (lockStatus, memory) := ProbeAndLockUserBufferForRead(input, KSPROPERTY_SIZE);
        if !NtSuccess(lockStatus) then false
        else IsTopologyNodesGet(DecodeKsProperty(memory))
  }

  /** The classifier answers yes exactly when the request is a device-control
      `IOCTL_KS_PROPERTY`, both buffer calls succeed with a non-NULL buffer of
      at least 24 bytes, and the header those bytes hold is the target query.
      Any failing step yields false: the classifier fails open. */
  lemma ClassifierExact(parameters: RequestParameters, input: UserInputBuffer)
    ensures IsGetKsTopologyNodesPropertyRequest(parameters, input) <==>
      && parameters.requestType == DeviceControl
      && parameters.ioControlCode == IOCTL_KS_PROPERTY
      && |input.bytes| >= KSPROPERTY_SIZE
      && NtSuccess(input.retrieveStatus) && !input.retrievesNull
      && NtSuccess(input.lockStatus)
      && IsTopologyNodesGet(DecodeKsProperty(input.bytes))
  {
    if |input.bytes| >= KSPROPERTY_SIZE {
      assert DecodeKsProperty(input.bytes[..KSPROPERTY_SIZE]) == DecodeKsProperty(input.bytes);
    }
  }

  /** Only the first `sizeof(KSPROPERTY)` bytes of the input are read: two
      inputs that agree on them and on the oracles classify alike. */
  lemma ClassifierReadsOnlyHeader(parameters: RequestParameters, a: UserInputBuffer, b: UserInputBuffer)
    requires a.retrieveStatus == b.retrieveStatus && a.retrievesNull == b.retrievesNull
    requires a.lockStatus == b.lockStatus
    requires |a.bytes| >= KSPROPERTY_SIZE && |b.bytes| >= KSPROPERTY_SIZE
    requires a.bytes[..KSPROPERTY_SIZE] == b.bytes[..KSPROPERTY_SIZE]
    ensures IsGetKsTopologyNodesPropertyRequest(parameters, a) == IsGetKsTopologyNodesPropertyRequest(parameters, b)
  {
  }

  /** A device-control `IOCTL_KS_PROPERTY` whose buffer calls succeed and whose
      input starts with the encoding of `p` is classified by `p` alone. */
  lemma ClassifierOnEncodedProperty(p: KsProperty, tail: seq<byte>, retrieveStatus: NtStatus, lockStatus: NtStatus)
    requires NtSuccess(retrieveStatus) && NtSuccess(lockStatus)
    ensures IsGetKsTopologyNodesPropertyRequest(
              RequestParameters(DeviceControl, IOCTL_KS_PROPERTY),
              UserInputBuffer(retrieveStatus, false, lockStatus, EncodeKsProperty(p) + tail))
            == IsTopologyNodesGet(p)
  {
    var bytes := EncodeKsProperty(p) + tail;
    assert bytes[..KSPROPERTY_SIZE] == EncodeKsProperty(p) + [];
    DecodeEncodeKsProperty(p, []);
  }
}
