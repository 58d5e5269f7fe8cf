# WinSoftVol request pipeline, modelled in Dafny

WinSoftVol is a Windows kernel-mode upper filter driver for an audio device. It
hides the device's hardware volume node from software that reads the control
topology. Every request the I/O manager delivers reaches the filter's in-caller-context
callback, `WinSoftVol_EvtWdfIoInCallerContext`. That callback does two things:

- It classifies the request. `WinSoftVol_IsGetKsTopologyNodesPropertyRequest`
  asks whether the request is a kernel-streaming property GET of the topology
  node list.
- It routes the request. A classified request is re-sent to the lower driver
  with a completion routine attached (`WinSoftVol_InterceptRequest`). Any other
  request is sent and forgotten (`WinSoftVol_ForwardRequest`).

When the lower driver answers an intercepted request,
`WinSoftVol_WdfRequestCompletionRoutine` runs. On a success status it calls
`WinSoftVol_OnRequestSuccess`. That function reads the reply in the IRP's system
buffer as a `KSMULTIPLE_ITEM` list of node-type GUIDs. It overwrites every
`KSNODETYPE_VOLUME` entry with `GUID_NULL`, in place. The routine then
completes the request with the lower driver's status.

The project has five modules:

- `KsWire` (kswire.dfy) holds the wire formats. Octets are integers 0..255 and
  `ULONG`s are little-endian. A GUID is 16 bytes, whose equality is
  `IsEqualGUID`. `KSPROPERTY` (24 bytes) and `KSMULTIPLE_ITEM` (8 bytes) are
  records with encoders and decoders, and round-trip lemmas in both directions
  for each.
  `NTSTATUS` is a signed 32-bit value, and `NT_SUCCESS` means non-negative.
- `Wdf` (wdf.dfy) holds the framework as the filter sees it. A `Request` class
  carries:
  - the request parameters;
  - the caller's input buffer, with outcome oracles for the retrieve and lock calls;
  - the IRP's `SystemBuffer` as an `array<byte>`, and its `OutputBufferLength`;
  - the status `WdfRequestGetStatus` reports;
  - a log of the format, set-completion-routine, send (with its mode and
    result) and complete (with its status) calls the filter makes on the
    request. The other framework calls (parameters, buffer retrieval and
    locking, object deletion, IRP access, status query) are not logged.

  Each `WdfRequestSend` outcome is an oracle: the target accepts the request,
  or refuses it synchronously with a failure status.
- `Classifier` (classifier.dfy) holds the classifier as a predicate over the
  parameters and the input buffer.
- `Rewriter` (rewriter.dfy) holds `WinSoftVol_OnRequestSuccess` as a method
  that rewrites the array in place. Its `for` loop is proved against the
  specification function `Rewrite`. The properties of the rewrite are lemmas
  about `Rewrite`.
- `Filter` (filter.dfy) holds the router and the completion routine as methods
  on a `Request`. Each method is proved to append exactly the events of a trace
  function. The "exactly one completion" lifecycle property is stated over
  those traces, and so is the place where the code breaks it.

The model follows src/driver.c:

- The comment at src/driver.c:149-150 describes an alternative design that
  fails volume-level property requests. The code does not do that, and the
  model does not either.
- The output buffer is read from `AssociatedIrp.SystemBuffer` only. The TODO
  at src/driver.c:79 about also supporting the standard METHOD_NEITHER output
  buffer is not implemented, and is not modelled.
- WDF requires every request to be completed exactly once. The code breaks
  this after a refused intercept (see Findings).

## Model

| member | source | states |
|---|---|---|
| KsWire.EncodeDecodeU32 | src/driver.c:94-100 | every 4-byte little-endian field is the encoding of the `ULONG` it decodes to |
| KsWire.DecodeEncodeKsProperty | src/driver.c:66-67 | decoding a `KSPROPERTY` header gives back the Set, Id and Flags that encoding wrote, whatever bytes follow it |
| KsWire.EncodeDecodeKsProperty | src/driver.c:66 | every 24-byte header is the encoding of the record it decodes to, so the decoder loses nothing |
| KsWire.DecodeEncodeMultipleItem | src/driver.c:94-100 | decoding a `KSMULTIPLE_ITEM` header gives back the Size and Count that encoding wrote |
| KsWire.EncodeDecodeMultipleItem | src/driver.c:94-100 | every 8-byte header is the encoding of the record it decodes to, so the decoder loses nothing |
| KsWire.DecodeMultipleItemPrefix | src/driver.c:94-100 | the decoded header depends on the first 8 bytes alone |
| KsWire.VolumeIsNotNull | src/driver.c:109-111 | `KSNODETYPE_VOLUME` differs from `GUID_NULL`, so a replaced entry is never matched again |
| Classifier.RetrieveUnsafeUserInputBuffer | src/driver.c:53-54 | a successful retrieval implies an input buffer of at least the requested minimum length (the framework refuses shorter ones with `STATUS_BUFFER_TOO_SMALL`) |
| Classifier.ProbeAndLockUserBufferForRead | src/driver.c:60-66 | the lock's status, and exactly the first `length` bytes of the input as the locked memory's buffer |
| Classifier.IsGetKsTopologyNodesPropertyRequest | src/driver.c:44-50 | a yes answer implies a `WdfRequestTypeDeviceControl` request with code `IOCTL_KS_PROPERTY`, so internal device-control requests never qualify |
| Classifier.ClassifierExact | src/driver.c:49-69 | the answer is true exactly when: the type is device control, the code is `IOCTL_KS_PROPERTY`, the buffer has at least 24 bytes, retrieval succeeds with a non-NULL pointer, the lock succeeds, and the header has Set = Topology, Id = NODES and the GET bit set. Any failing step gives false (fail-open) |
| Classifier.ClassifierReadsOnlyHeader | src/driver.c:53-67 | two inputs that agree on their first `sizeof(KSPROPERTY)` bytes and on the oracles classify alike |
| Classifier.ClassifierOnEncodedProperty | src/driver.c:66-67 | for a property request whose buffer calls succeed, an input that starts with the encoding of a header `p` is classified by `IsTopologyNodesGet(p)` alone |
| Rewriter.Validate | src/driver.c:87-105 | the header passes exactly when `OutputBufferLength >= 8`, `Size <= OutputBufferLength` and `Size == 8 + 16*Count` (64-bit `size_t`). Passing guarantees that the entries end at `Size`, inside the buffer |
| Rewriter.Rewrite | src/driver.c:82-113 | the rewrite keeps the length, and leaves the buffer byte-for-byte unchanged when the header fails any check |
| Rewriter.OnRequestSuccess | src/driver.c:72-114 | the in-place loop leaves a non-NULL system buffer equal to `Rewrite` of its old contents. A NULL buffer is left alone |
| Rewriter.ScrubStep | src/driver.c:107-113 | one turn of the loop replaces entry `k` by `GUID_NULL` exactly when it is `KSNODETYPE_VOLUME`, and changes nothing else |
| Rewriter.RewriteEntry | src/driver.c:107-113 | on a validated reply, entry `i` becomes `GUID_NULL` if it was `KSNODETYPE_VOLUME`, and keeps its value otherwise |
| Rewriter.RewriteChangesOnlyVolumeEntries | src/driver.c:107-113 | an entry changes if and only if it was `KSNODETYPE_VOLUME`. It then becomes `GUID_NULL`, and no entry is `KSNODETYPE_VOLUME` afterwards |
| Rewriter.RewriteWritesBounded | src/driver.c:95-113 | every changed byte lies in `[8, Size)`, and `Size <= OutputBufferLength`; header and tail are kept, and nothing changes unless the header validated |
| Rewriter.RewriteKeepsHeader | src/driver.c:94-105 | the rewritten buffer validates exactly as the original did |
| Rewriter.ScrubbedUpToNoVolume | src/driver.c:107-113 | a list with no `KSNODETYPE_VOLUME` entry is left as it is |
| Rewriter.RewriteIdempotent | src/driver.c:107-113 | running the rewrite a second time changes nothing |
| Rewriter.RewriteEntries | src/driver.c:107-113 | the entry list after the rewrite is the entry list before, scrubbed element by element |
| Rewriter.ScrubAllCounts | src/driver.c:107-113 | take `n` entries, `k` of them `KSNODETYPE_VOLUME`. Afterwards none is `KSNODETYPE_VOLUME`, the `GUID_NULL` count grows by `k`, and every other value occurs as often as before |
| Rewriter.DecodeReply | src/driver.c:94-105 | a reply built from a GUID list passes validation, and its entries read back as that list |
| Rewriter.RewriteEncodedReply | src/driver.c:94-113 | rewriting the reply built from a list is the same as building the reply from the scrubbed list |
| Rewriter.TopologyScrubScenario | src/driver.c:107-113 | a four-entry reply whose entry 2 is `KSNODETYPE_VOLUME` comes back with entry 2 as `GUID_NULL` and the other three unchanged |
| Rewriter.Validate32 | src/driver.c:89-105 | the same checks with `size_t` 32 bits wide: `8 + 16*Count` is taken modulo 2^32 |
| Rewriter.ExpectedSizeWrapsOn32Bit | src/driver.c:100-105 | with a 32-bit `size_t`, an 8-byte reply with Size 8 and Count 0x10000000 passes every check although its entries lie beyond the buffer; the 64-bit check rejects it |
| Wdf.StatusAfterSend | src/driver.c:37-38 | after a refused send, `WdfRequestGetStatus` reports the refusal's status, which is a failure; after an accepted send it reports what it did before, so an earlier failure stays in place |
| Filter.DispatchStatus | src/driver.c:148-160 | after the dispatch, the reported status is unchanged when the request was handed off at once. It is the forward's refusal status when the forward was refused, and the intercept's refusal status when only the intercept was refused |
| Filter.ForwardRequest | src/driver.c:34-42 | appends one send-and-forget, followed by a completion with the reported status if the send is refused. The reported status becomes the refusal's status, and is unchanged on acceptance |
| Filter.InterceptRequest | src/driver.c:131-142 | appends format, set completion routine and send, plus a completion with the reported status if the send is refused. Returns true exactly when the send was accepted. The reported status changes as after `Send` |
| Filter.WdfRequestCompletionRoutine | src/driver.c:116-129 | rewrites the payload only when `NT_SUCCESS(IoStatus.Status)`, leaves it unchanged otherwise, completes the request once with that same status, and leaves the reported status alone |
| Filter.EvtWdfIoInCallerContext | src/driver.c:147-160 | appends exactly the as-written dispatch trace for the classifier's verdict on this request, and leaves the reported status at `DispatchStatus` |
| Filter.ForwardCounts | src/driver.c:37-41 | the forward helper sends once and releases the request exactly once: it is completed on refusal, or handed off on acceptance |
| Filter.InterceptCounts | src/driver.c:134-141 | the intercept helper sends once. It completes the request only when the send is refused, and then exactly once |
| Filter.CompletionRoutineCounts | src/driver.c:128 | the completion routine completes the request exactly once and sends nothing |
| Filter.RoutingFollowsClassifier | src/driver.c:151-159 | only classified requests take the intercept path. An unclassified request is forwarded: sent once, with send-and-forget, and released once |
| Filter.InterceptedNotForwarded | src/driver.c:151-153 | a successful intercept returns without forwarding, and does not complete the request before its completion routine runs |
| Filter.SendFailureCompletesOnce | src/driver.c:134-141 | a refused send in either helper completes the request exactly once, with the status `WdfRequestGetStatus` reports. After an accepted send the filter does not complete the request itself |
| Filter.InterceptedCompletesOnce | src/driver.c:117-142 | an accepted intercept is completed exactly once over its life, by the completion routine, and is not touched afterwards |
| Filter.CompletesOnceUnlessInterceptRefused | src/driver.c:148-160 | as written, a request is completed exactly once and never touched after release, if and only if it is not a classified request whose intercept send was refused |
| Filter.FailedInterceptIsSentAgain | src/driver.c:137-159 | after a refused intercept, the request (already completed at line 137) is sent again at line 159 and released twice |
| Filter.CorrectedDispatchCompletesOnce | src/driver.c:151-159 | with the dispatch returning after any intercept, every request is completed exactly once and never touched after release |

## Left out

- `DriverEntry`, `WinSoftVol_EvtWdfDriverDeviceAdd`, `WinSoftVol_PrintDeviceName` and `WinSoftVol_Log` (src/driver.c:11-32, 162-190) are left out. They are framework lifecycle and diagnostics, with no decision logic.
- The root-level driver.c and filter.c are not part of this model. They are earlier snapshots and the generic framework sample filter.
- The memory behaviour of `WdfRequestRetrieveUnsafeUserInputBuffer`, `WdfRequestProbeAndLockUserBufferForRead`, `WdfMemoryGetBuffer` and the IRP fields is replaced by oracles. The model keeps each call's status, the NULL pointer case and the bytes it exposes. The framework's documented refusal of an input shorter than the minimum length is kept.
- The deletion of the locked input memory object (src/driver.c:68) is not modelled. Object lifetimes are the framework's.
- The lower driver is not modelled. What it writes into the system buffer, whether it sets that buffer, and when it completes the request are all taken as found. The completion routine receives the lower driver's status as a parameter.
- Which thread or IRQL the completion routine runs on is not modelled (kernel execution context and concurrency).
- `WDF_REQUEST_TYPE` is reduced to `WdfRequestTypeDeviceControl`, `WdfRequestTypeDeviceControlInternal` and `OtherType` for every other type. The classifier only tests for `WdfRequestTypeDeviceControl`; the internal type is kept because it can carry the same IOCTL code.
- `WdfRequestFormatRequestUsingCurrentType` and `WdfRequestSetCompletionRoutine` appear only as logged events.
- The framework's own reaction to a request that is sent again after it was completed (and possibly completed again) is not modelled. The model shows that the code does it, not what happens next.
- The alternative design in the comment at src/driver.c:149-150 and the standard METHOD_NEITHER output buffer in the TODO at src/driver.c:79 are not implemented in the code, so they are not modelled.
- Rewriter.OnRequestSuccess and Filter.WdfRequestCompletionRoutine assume (`Request.BufferFits`) that the system buffer the lower driver sets holds at least `OutputBufferLength` bytes. `IOCTL_KS_PROPERTY` is METHOD_NEITHER, so the I/O manager allocates no such buffer, and src/driver.c:94-113 never checks its real size. If the lower driver's buffer were shorter, the code would read and write out of bounds; the model does not describe that case.
- Rewriter.OnRequestSuccess: the `size_t` arithmetic is modelled 64 bits wide, as on x64 builds. `Validate32` and `ExpectedSizeWrapsOn32Bit` show the 32-bit behaviour.

## Findings

| source | as written | input that shows it | evidently intended | confidence | as-written member | corrected member |
|---|---|---|---|---|---|---|
| src/driver.c:137-159 | a refused intercept send completes the request (line 137) and returns FALSE; the dispatcher then falls through and forwards the already-completed request (line 159) | a classified topology-nodes GET for which `WdfRequestSend` with the completion routine returns FALSE with status S | a refused intercept ends the handling of the request, which is completed once with S | not executed | Filter.FailedInterceptIsSentAgain | Filter.CorrectedDispatchCompletesOnce |
| src/driver.c:100-105 | with a 32-bit `size_t`, `sizeof(KSMULTIPLE_ITEM) + itemCount * sizeof(GUID)` wraps modulo 2^32 | OutputBufferLength 8, Size 8, Count 0x10000000: the check passes, and the loop walks 2^28 entries past an 8-byte buffer | the size check guarantees that Count entries fit inside Size bytes | not executed; affects 32-bit builds only | Rewriter.ExpectedSizeWrapsOn32Bit | Rewriter.Validate |
