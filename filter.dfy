/** The request path of the filter: `WinSoftVol_EvtWdfIoInCallerContext`
    routes each request either to `WinSoftVol_InterceptRequest` (send with a
    completion routine) or to `WinSoftVol_ForwardRequest` (send and forget);
    `WinSoftVol_WdfRequestCompletionRoutine` later rewrites a successful reply
    and completes the request with the lower driver's status.

    Each driver routine is a method on a `Request`, proved to append exactly
    the events of a trace function; the lifecycle properties are lemmas about
    those trace functions. */
module Filter {
  import opened KsWire
  import opened Wdf
  import Classifier
  import Rewriter

  // ---------------------------------------------------------------------
  // Traces: what each routine does to a request

  /** `WinSoftVol_ForwardRequest`: a send-and-forget, and a completion with
      `WdfRequestGetStatus` if the send is refused. */
  function ForwardTrace(outcome: SendOutcome): seq<Event> {
    match outcome
    case Accepted => [Sent(SendAndForget, true)]
    case Rejected(status) => [Sent(SendAndForget, false), Completed(status)]
  }

  /** `WinSoftVol_InterceptRequest`: format, attach the completion routine,
      send, and complete at once if the send is refused. */
  function InterceptTrace(outcome: SendOutcome): seq<Event> {
    match outcome
    case Accepted => [Formatted, CompletionRoutineSet, Sent(WithCompletionRoutine, true)]
    case Rejected(status) => [Formatted, CompletionRoutineSet, Sent(WithCompletionRoutine, false), Completed(status)]
  }

  /** `WinSoftVol_EvtWdfIoInCallerContext` as written: a refused intercept
      falls through to the forward call. */
  function DispatchTrace(classified: bool, intercept: SendOutcome, forward: SendOutcome): seq<Event> {
    if classified && intercept.Accepted? then InterceptTrace(intercept)
    else if classified then InterceptTrace(intercept) + ForwardTrace(forward)
    else ForwardTrace(forward)
  }

  /** What `WdfRequestGetStatus` reports after the dispatch as written, when
      it reported `status` before. */
  function DispatchStatus(classified: bool, intercept: SendOutcome, forward: SendOutcome, status: NtStatus)
    : (r: NtStatus)
    ensures (classified && intercept.Accepted?) || (!classified && forward.Accepted?) ==> r == status
    ensures (!classified || intercept.Rejected?) && forward.Rejected? ==> r == forward.status
    ensures classified && intercept.Rejected? && forward.Accepted? ==> r == intercept.status
  {
    var afterIntercept := if classified then StatusAfterSend(status, intercept) else status;
    if classified && intercept.Accepted? then afterIntercept else StatusAfterSend(afterIntercept, forward)
  }

  /** The dispatch as evidently intended: the intercept path has handled the
      request whether or not its send was accepted. */
  function CorrectedDispatchTrace(classified: bool, intercept: SendOutcome, forward: SendOutcome): seq<Event> {
    if classified then InterceptTrace(intercept) else ForwardTrace(forward)
  }

  /** `WinSoftVol_WdfRequestCompletionRoutine`'s call on the request: one
      completion with the lower driver's status. */
  function CompletionRoutineTrace(ioStatus: NtStatus): seq<Event> {
    [Completed(ioStatus)]
  }

  /** The whole life of a request in the filter: the dispatch, then, if a
      send with the completion routine was accepted, the routine's events once
      the lower driver completes the request with `ioStatus`. */
  function Lifecycle(dispatch: seq<Event>, ioStatus: NtStatus): seq<Event> {
    if Sent(WithCompletionRoutine, true) in dispatch then dispatch + CompletionRoutineTrace(ioStatus)
    else dispatch
  }

  /** An event after which the request is no longer the filter's: it was
      completed, or handed to the lower driver for good. */
  predicate Releases(e: Event) {
    e.Completed? || e == Sent(SendAndForget, true)
  }

  /** How many times the request is released: completed by the filter, or
      handed for good to the driver it was sent to and forgotten. */
  function ReleaseCount(t: seq<Event>): nat {
    if t == [] then 0 else (if Releases(t[0]) then 1 else 0) + ReleaseCount(t[1..])
  }

  /** How many times the request is sent down. */
  function Sends(t: seq<Event>): nat {
    if t == [] then 0 else (if t[0].Sent? then 1 else 0) + Sends(t[1..])
  }

  /** Nothing is done with the request once it has been released. */
  predicate NoUseAfterRelease(t: seq<Event>) {
    forall i :: 0 <= i < |t| - 1 ==> !Releases(t[i])
  }

  lemma ReleaseCountCons(e: Event, t: seq<Event>)
    ensures ReleaseCount([e] + t) == (if Releases(e) then 1 else 0) + ReleaseCount(t)
    ensures Sends([e] + t) == (if e.Sent? then 1 else 0) + Sends(t)
  {
    assert ([e] + t)[1..] == t;
  }

  lemma {:induction false} ReleaseCountAppend(a: seq<Event>, b: seq<Event>)
    ensures ReleaseCount(a + b) == ReleaseCount(a) + ReleaseCount(b)
    ensures Sends(a + b) == Sends(a) + Sends(b)
  {
    if a != [] {
      ReleaseCountAppend(a[1..], b);
      assert a + b == [a[0]] + (a[1..] + b);
      assert a == [a[0]] + a[1..];
      ReleaseCountCons(a[0], a[1..] + b);
      ReleaseCountCons(a[0], a[1..]);
    } else {
      assert a + b == b;
    }
  }

  /** The forward helper always releases the request once and sends it once. */
  lemma ForwardCounts(outcome: SendOutcome)
    ensures ReleaseCount(ForwardTrace(outcome)) == 1 && Sends(ForwardTrace(outcome)) == 1
    ensures NoUseAfterRelease(ForwardTrace(outcome))
  {
    var t := ForwardTrace(outcome);
    assert t == [t[0]] + t[1..];
    ReleaseCountCons(t[0], t[1..]);
    if outcome.Rejected? {
      assert t[1..] == [t[1]] + [];
      ReleaseCountCons(t[1], []);
    }
  }

  /** The intercept helper sends once and releases the request only when the
      send is refused. */
  lemma InterceptCounts(outcome: SendOutcome)
    ensures ReleaseCount(InterceptTrace(outcome)) == (if outcome.Rejected? then 1 else 0)
    ensures Sends(InterceptTrace(outcome)) == 1
    ensures NoUseAfterRelease(InterceptTrace(outcome))
  {
    var t := InterceptTrace(outcome);
    assert t == [t[0]] + ([t[1]] + ([t[2]] + t[3..]));
    ReleaseCountCons(t[0], [t[1]] + ([t[2]] + t[3..]));
    ReleaseCountCons(t[1], [t[2]] + t[3..]);
    ReleaseCountCons(t[2], t[3..]);
    if outcome.Rejected? {
      assert t[3..] == [t[3]] + [];
      ReleaseCountCons(t[3], []);
    }
  }

  lemma CompletionRoutineCounts(ioStatus: NtStatus)
    ensures ReleaseCount(CompletionRoutineTrace(ioStatus)) == 1
    ensures Sends(CompletionRoutineTrace(ioStatus)) == 0
  {
    assert CompletionRoutineTrace(ioStatus) == [Completed(ioStatus)] + [];
    ReleaseCountCons(Completed(ioStatus), []);
  }

  // ---------------------------------------------------------------------
  // The routines

  method ForwardRequest(request: Request, outcome: SendOutcome)
    modifies request
    ensures request.events == old(request.events) + ForwardTrace(outcome)
    ensures request.status == StatusAfterSend(old(request.status), outcome)
  {
    var sent := request.Send(SendAndForget, outcome);
    if !sent {
      var requestStatus := request.GetStatus();
      request.Complete(requestStatus);
    }
  }

  method InterceptRequest(request: Request, outcome: SendOutcome) returns (intercepted: bool)
    modifies request
    ensures intercepted == outcome.Accepted?
    ensures request.events == old(request.events) + InterceptTrace(outcome)
    ensures request.status == StatusAfterSend(old(request.status), outcome)
  {
    request.FormatRequestUsingCurrentType();
    request.SetCompletionRoutine();
    var sent := request.Send(WithCompletionRoutine, outcome);
    if !sent {
      var requestStatus := request.GetStatus();
      request.Complete(requestStatus);
      return false;
    }
    return true;
  }

  /** `WinSoftVol_WdfRequestCompletionRoutine`: the payload is rewritten only
      on a success status, and the request is completed with that same status. */
  method WdfRequestCompletionRoutine(request: Request, ioStatus: NtStatus)
    requires request.BufferFits()
    modifies request, request.systemBuffer
    ensures request.events == old(request.events) + CompletionRoutineTrace(ioStatus)
    ensures request.status == old(request.status)
    ensures request.systemBuffer != null ==>
      request.systemBuffer[..] ==
        if NtSuccess(ioStatus)
        then Rewriter.Rewrite(old(request.systemBuffer[..]), request.outputBufferLength)
        else old(request.systemBuffer[..])
  {
    if NtSuccess(ioStatus) {
      Rewriter.OnRequestSuccess(request);
    }
    request.Complete(ioStatus);
  }

  /** `WinSoftVol_EvtWdfIoInCallerContext`, with the outcomes of the intercept
      send and of the forward send as oracles. */
  method EvtWdfIoInCallerContext(request: Request, intercept: SendOutcome, forward: SendOutcome)
    modifies request
    ensures request.events == old(request.events) +
      DispatchTrace(Classifier.IsGetKsTopologyNodesPropertyRequest(request.parameters, request.input),
                    intercept, forward)
    ensures request.status ==
      DispatchStatus(Classifier.IsGetKsTopologyNodesPropertyRequest(request.parameters, request.input),
                     intercept, forward, old(request.status))
  {
    if Classifier.IsGetKsTopologyNodesPropertyRequest(request.parameters, request.input) {
      var intercepted := InterceptRequest(request, intercept);
      if intercepted {
        return;
      }
    }
    ForwardRequest(request, forward);
  }

  // ---------------------------------------------------------------------
  // Routing properties

  /** Only classified requests take the intercept path; an unclassified one
      is forwarded, sent exactly once and released exactly once. */
  lemma RoutingFollowsClassifier(classified: bool, intercept: SendOutcome, forward: SendOutcome)
    ensures CompletionRoutineSet in DispatchTrace(classified, intercept, forward) <==> classified
    ensures !classified ==>
      && DispatchTrace(classified, intercept, forward) == ForwardTrace(forward)
      && ForwardTrace(forward)[0] == Sent(SendAndForget, forward.Accepted?)
      && Sends(DispatchTrace(classified, intercept, forward)) == 1
      && ReleaseCount(DispatchTrace(classified, intercept, forward)) == 1
  {
    ForwardCounts(forward);
    if classified {
      assert InterceptTrace(intercept)[1] == CompletionRoutineSet;
    }
  }

  /** A successful intercept does not forward, and the filter does not
      complete the request before its completion routine runs. */
  lemma InterceptedNotForwarded(forward: SendOutcome)
    ensures DispatchTrace(true, Accepted, forward) ==
      [Formatted, CompletionRoutineSet, Sent(WithCompletionRoutine, true)]
    ensures Sends(DispatchTrace(true, Accepted, forward)) == 1
    ensures ReleaseCount(DispatchTrace(true, Accepted, forward)) == 0
  {
    InterceptCounts(Accepted);
  }

  /** A refused send in either helper completes the request exactly once,
      with the status `WdfRequestGetStatus` reports; an accepted send leaves
      completion to the lower driver. */
  lemma SendFailureCompletesOnce(status: FailureStatus)
    ensures ReleaseCount(ForwardTrace(Rejected(status))) == 1
    ensures ForwardTrace(Rejected(status))[1] == Completed(status)
    ensures ReleaseCount(InterceptTrace(Rejected(status))) == 1
    ensures InterceptTrace(Rejected(status))[3] == Completed(status)
    ensures forall e :: e in InterceptTrace(Accepted) ==> !e.Completed?
    ensures forall e :: e in ForwardTrace(Accepted) ==> !e.Completed?
  {
    ForwardCounts(Rejected(status));
    InterceptCounts(Rejected(status));
  }

  // ---------------------------------------------------------------------
  // Exactly-once completion

  /** As written, a request is completed exactly once, and left alone after
      it is released, on every path except a refused intercept. */
  lemma CompletesOnceUnlessInterceptRefused(
    classified: bool, intercept: SendOutcome, forward: SendOutcome, ioStatus: NtStatus)
    ensures var t := Lifecycle(DispatchTrace(classified, intercept, forward), ioStatus);
      (ReleaseCount(t) == 1 && NoUseAfterRelease(t)) <==> !(classified && intercept.Rejected?)
  {
    var d := DispatchTrace(classified, intercept, forward);
    if classified && intercept.Rejected? {
      FailedInterceptIsSentAgain(intercept.status, forward, ioStatus);
    } else if classified {
      InterceptedCompletesOnce(ioStatus);
    } else {
      ForwardCounts(forward);
      assert Sent(WithCompletionRoutine, true) !in d;
    }
  }

  /** An accepted intercept is released once, by its completion routine. */
  lemma InterceptedCompletesOnce(ioStatus: NtStatus)
    ensures var t := Lifecycle(InterceptTrace(Accepted), ioStatus);
      ReleaseCount(t) == 1 && NoUseAfterRelease(t)
  {
    var t := Lifecycle(InterceptTrace(Accepted), ioStatus);
    assert InterceptTrace(Accepted)[2] == Sent(WithCompletionRoutine, true);
    assert t == InterceptTrace(Accepted) + CompletionRoutineTrace(ioStatus);
    InterceptCounts(Accepted);
    CompletionRoutineCounts(ioStatus);
    ReleaseCountAppend(InterceptTrace(Accepted), CompletionRoutineTrace(ioStatus));
  }

  /** The defect: after a refused intercept the request has already been
      completed, and is then sent down again and released a second time. */
  lemma FailedInterceptIsSentAgain(status: FailureStatus, forward: SendOutcome, ioStatus: NtStatus)
    ensures var d := DispatchTrace(true, Rejected(status), forward);
      && Lifecycle(d, ioStatus) == d
      && d[3] == Completed(status)
      && d[4] == Sent(SendAndForget, forward.Accepted?)
      && ReleaseCount(d) == 2
      && Sends(d) == 2
      && !NoUseAfterRelease(d)
  {
    var d := DispatchTrace(true, Rejected(status), forward);
    assert Sent(WithCompletionRoutine, true) !in d;
    InterceptCounts(Rejected(status));
    ForwardCounts(forward);
    ReleaseCountAppend(InterceptTrace(Rejected(status)), ForwardTrace(forward));
    assert Releases(d[3]);
  }

  /** With the corrected dispatch every request is completed exactly once and
      never touched after it is released, whatever the oracles answer. */
  lemma CorrectedDispatchCompletesOnce(
    classified: bool, intercept: SendOutcome, forward: SendOutcome, ioStatus: NtStatus)
    ensures var t := Lifecycle(CorrectedDispatchTrace(classified, intercept, forward), ioStatus);
      ReleaseCount(t) == 1 && NoUseAfterRelease(t)
  {
    var d := CorrectedDispatchTrace(classified, intercept, forward);
    if classified && intercept.Accepted? {
      InterceptedCompletesOnce(ioStatus);
    } else if classified {
      InterceptCounts(intercept);
      assert Sent(WithCompletionRoutine, true) !in d;
    } else {
      ForwardCounts(forward);
      assert Sent(WithCompletionRoutine, true) !in d;
    }
  }
}
