/** Ownership of one bundled runtime: its Job, threads, private session and
    secret, under every outcome of every native call. */
module RuntimeOwner {
  import opened Common
  import Tracking = LifecycleTracker
  import opened StdoutMonitor
  import LauncherEvents

  datatype OwnerState = Starting | Ready | Stopping | Cleaned

  datatype Kind = Graceful | Forced

  datatype Failure =
    | OwnerNotRunning | OwnerAlreadyCleaned | OwnerStillHasLiveResources
    | SessionUnavailable | RuntimeIdentityUnavailable
    | JobDidNotBecomeEmpty | ProcessDidNotExit | NativeFailure | ThreadPanicked
    | ProtocolRejected(error: LauncherEvents.ProtocolError)
    | StdoutReadFailed | StderrReadFailed | ProtocolStreamEnded | MonitorDisconnected
    | LauncherReportedFailure | StoppedUnexpectedly
    | WrapperExited | RuntimeExited | UnexpectedLifecycleState
    | ReadinessTimeout | TokenNotConsumed | StoppedBeforeReadiness
    | CleanupAfter(primary: Failure, cleanup: Failure)

  datatype ShutdownReport = ShutdownReport(
    kind: Kind, wrapperExit: Option<nat>, runtimeExit: Option<nat>,
    ignoredLines: nat, jobEmpty: bool, sessionRemoved: bool)

  /** What the monitor threads have told the owner: `consumed` are the messages
      already received, `channel` those still to come. */
  datatype Inbox = Inbox(
    monitorState: Tracking.State, stdoutEnded: bool, ignoredLines: nat,
    consumed: seq<Message>, channel: seq<Message>)

  /** The owner's fields. Held resources are flags. The last three record facts
      about the outside world: that the Job was observed empty, that the
      private files are gone, and that they went while a Job was still owned
      or had never been observed empty. */
  datatype Owner = Owner(
    session: bool, process: bool, runtime: bool, secret: bool,
    stdoutThread: bool, stderrThread: bool,
    state: OwnerState, inbox: Inbox,
    jobSeenEmpty: bool, filesRemoved: bool, unsafeRemoval: bool)

  /** A native call's result; None is an error. */
  type Native<T> = Option<T>

  /** What one turn of the graceful wait observes. */
  datatype Turn = Turn(
    received: nat, disconnected: bool,
    wrapperStopped: Native<bool>, runtimeStopped: Native<bool>, activeProcesses: Native<nat>,
    deadlinePassed: bool)

  /** Every native outcome one call may meet, chosen by an adversary. */
  datatype Outcomes = Outcomes(
    turns: seq<Turn>, controlFile: bool,
    terminated: bool, emptyAfterTerminate: Native<bool>, emptyAtFinish: Native<bool>,
    wrapperExit: Native<Option<nat>>, runtimeExit: Native<Option<nat>>,
    stdoutPanics: bool, stderrPanics: bool,
    securityVerified: bool, filesDeleted: bool)

  function First(a: Option<Failure>, b: Option<Failure>): Option<Failure> { if a.Some? then a else b }

  function When(condition: bool, failure: Failure): Option<Failure> { if condition then Some(failure) else None }

  // ------------------------------------------------------- monitor messages

  function ApplyMonitor(b: Inbox, m: Message, strict: bool, stopping: bool): (Inbox, Option<Failure>)
  {
    match m
    case EventSeen(state, _) => (b.(monitorState := state), None)
    case ProtocolFailure(error) => (b, When(strict, ProtocolRejected(error)))
    case StdoutReadFailure => (b, When(strict, StdoutReadFailed))
    case StderrReadFailure => (b, When(strict, StderrReadFailed))
    case StdoutEnded(state, ignored) =>
      (b.(monitorState := state, ignoredLines := ignored, stdoutEnded := true),
       When(strict && !stopping, ProtocolStreamEnded))
  }

  /** What a strict drain refuses in an event it could apply. */
  function EventRefusal(m: Message, stopping: bool): Option<Failure>
  {
    if !m.EventSeen? then None
    else if m.event.Error? then Some(LauncherReportedFailure)
    else When((m.event.Stopping? || m.event.Stopped?) && !stopping, StoppedUnexpectedly)
  }

  function Received(b: Inbox): Inbox
    requires b.channel != []
  {
    b.(consumed := b.consumed + [b.channel[0]], channel := b.channel[1..])
  }

  /** One message received: the inbox after it, and why to stop, if at all. */
  function ReceiveOne(b: Inbox, strict: bool, stopping: bool): (Inbox, Option<Failure>)
    requires b.channel != []
  {
    var m := b.channel[0];
    var (b', failure) := ApplyMonitor(Received(b), m, strict, stopping);
    (b', if failure.Some? then failure else if strict then EventRefusal(m, stopping) else None)
  }

  /** Receiving up to `count` queued messages. */
  function Drain(b: Inbox, strict: bool, stopping: bool, count: nat, disconnected: bool): (Inbox, Option<Failure>)
    decreases |b.channel|
  {
    if count == 0 || b.channel == [] then
      (b, When(disconnected && strict && !stopping, MonitorDisconnected))
    else
      var (b', failure) := ReceiveOne(b, strict, stopping);
      if failure.Some? then (b', failure) else Drain(b', strict, stopping, count - 1, disconnected)
  }

  function DrainMonitor(o: Owner, strict: bool, count: nat, disconnected: bool): (Owner, Option<Failure>)
  {
    var (b, failure) := Drain(o.inbox, strict, o.state == Stopping, count, disconnected);
    (o.(inbox := b), failure)
  }

  // ---------------------------------------------------------------- cleanup

  /** Both threads have ended, so everything they sent has arrived. */
  function JoinMonitors(o: Owner, strict: bool, n: Outcomes): (Owner, Option<Failure>)
  {
    var panics := When((o.stdoutThread && n.stdoutPanics) || (o.stderrThread && n.stderrPanics), ThreadPanicked);
    var joined := o.(stdoutThread := false, stderrThread := false);
    var (o', failure) := DrainMonitor(joined, strict, |o.inbox.channel|, true);
    (o', First(panics, failure))
  }

  function RemoveSession(o: Owner, n: Outcomes): (Owner, Option<Failure>)
  {
    if !o.session then (o, None)
    else if n.filesDeleted then
      (o.(session := false, filesRemoved := true,
          unsafeRemoval := o.unsafeRemoval || o.process || !o.jobSeenEmpty),
       When(!n.securityVerified, NativeFailure))
    else (o, Some(NativeFailure))
  }

  /** Closing the Job handle, joining, removing the session, forgetting the
      runtime and the secret. */
  function Release(o: Owner, strict: bool, n: Outcomes): (Owner, Option<Failure>)
  {
    var (joined, e1) := JoinMonitors(o.(process := false), strict, n);
    var (removed, e2) := RemoveSession(joined, n);
    (Forgotten(removed), First(e1, e2))
  }

  function Forgotten(o: Owner): Owner
  {
    o.(runtime := false, secret := false, state := if o.session then o.state else Cleaned)
  }

  /** What waiting for the Job and both processes found. */
  datatype Exits = Exits(error: Option<Failure>, jobEmpty: bool, wrapper: Option<nat>, runtime: Option<nat>)

  function Waited(owned: bool, captured: bool, n: Outcomes): Exits
  {
    var jobError :=
      if !owned then Some(OwnerNotRunning)
      else if n.emptyAtFinish.None? then Some(NativeFailure)
      else if !n.emptyAtFinish.value then Some(JobDidNotBecomeEmpty)
      else When(n.wrapperExit.None?, NativeFailure);
    var runtimeError :=
      if !captured then Some(RuntimeIdentityUnavailable) else When(n.runtimeExit.None?, NativeFailure);
    var wrapper := if owned && n.wrapperExit.Some? then n.wrapperExit.value else None;
    var runtime := if captured && n.runtimeExit.Some? then n.runtimeExit.value else None;
    Exits(First(jobError, First(runtimeError, When(wrapper.None? || runtime.None?, ProcessDidNotExit))),
          owned && n.emptyAtFinish == Some(true), wrapper, runtime)
  }

  function FinishCleanup(o: Owner, kind: Kind, strict: bool, n: Outcomes): (Owner, Result<ShutdownReport, Failure>)
  {
    var w := Waited(o.process, o.runtime, n);
    var seen := o.(jobSeenEmpty := o.jobSeenEmpty || w.jobEmpty);
    if !w.jobEmpty || w.wrapper.None? || w.runtime.None? then
      (seen, Err(if w.error.Some? then w.error.value else ProcessDidNotExit))
    else
      var (o', releaseError) := Release(seen, strict, n);
      var error := First(w.error, releaseError);
      (o', if error.Some? then Err(error.value)
           else Ok(ShutdownReport(kind, w.wrapper, w.runtime, o'.inbox.ignoredLines, w.jobEmpty, !o'.session)))
  }

  function Combined(primary: Failure, cleanup: Option<Failure>): Failure
  {
    if cleanup.Some? then CleanupAfter(primary, cleanup.value) else primary
  }

  function ErrorOf<T>(r: Result<T, Failure>): Option<Failure> { if r.Err? then Some(r.error) else None }

  function Terminate(o: Owner, n: Outcomes): (Owner, Option<Failure>)
    requires o.process
  {
    (o.(jobSeenEmpty := o.jobSeenEmpty || n.emptyAfterTerminate == Some(true)),
     First(When(!n.terminated, NativeFailure),
           match n.emptyAfterTerminate
           case None => Some(NativeFailure)
           case Some(empty) => When(!empty, JobDidNotBecomeEmpty)))
  }

  function ForceAndCleanup(o: Owner, n: Outcomes): (Owner, Result<ShutdownReport, Failure>)
  {
    var (t, primary) := if o.process then Terminate(o, n) else (o, Some(OwnerNotRunning));
    var (o', cleanup) := FinishCleanup(t, Forced, false, n);
    (o', if primary.None? then cleanup else Err(Combined(primary.value, ErrorOf(cleanup))))
  }

  function AbortAndCleanup(o: Owner, n: Outcomes): (Owner, Result<(), Failure>)
  {
    var stopping := o.(state := Stopping);
    var (t, primary) := if o.process then Terminate(stopping, n) else (stopping, None);
    if o.process && n.emptyAfterTerminate != Some(true) then
      (t, Err(if primary.Some? then primary.value else JobDidNotBecomeEmpty))
    else
      var (o', error) := Release(t, false, n);
      (o', if First(primary, error).Some? then Err(First(primary, error).value) else Ok(()))
  }

  // -------------------------------------------------------------- the calls

  /** Whether both processes and the whole Job have ended after `stopped`. */
  function GracefulObserved(o: Owner, t: Turn): Result<bool, Failure>
  {
    if o.inbox.monitorState != Tracking.Halted then Ok(false)
    else if !o.process then Err(OwnerNotRunning)
    else if t.wrapperStopped.None? then Err(NativeFailure)
    else if !o.runtime then Err(RuntimeIdentityUnavailable)
    else if t.runtimeStopped.None? then Err(NativeFailure)
    else if !t.wrapperStopped.value || !t.runtimeStopped.value then Ok(false)
    else if t.activeProcesses.None? then Err(NativeFailure)
    else Ok(t.activeProcesses.value == 0)
  }

  function AwaitGraceful(o: Owner, n: Outcomes, turns: seq<Turn>): (Owner, Result<ShutdownReport, Failure>)
    decreases |turns|
  {
    if turns == [] then ForceAndCleanup(o, n)
    else
      var t := turns[0];
      var (d, failure) := DrainMonitor(o, true, t.received, t.disconnected);
      if failure.Some? then
        var (o', cleanup) := ForceAndCleanup(d, n);
        (o', Err(Combined(failure.value, ErrorOf(cleanup))))
      else match GracefulObserved(d, t)
        case Err(error) => (d, Err(error))
        case Ok(true) => FinishCleanup(d, Graceful, true, n)
        case Ok(false) => if t.deadlinePassed then ForceAndCleanup(d, n) else AwaitGraceful(d, n, turns[1..])
  }

  function Shutdown(o: Owner, n: Outcomes): (Owner, Result<ShutdownReport, Failure>)
  {
    if o.state == Cleaned then (o, Err(OwnerAlreadyCleaned))
    else if o.state == Stopping then AwaitGraceful(o, n, n.turns)
    else
      var s := o.(state := Stopping);
      if !s.session then (s, Err(SessionUnavailable))
      else if !n.controlFile then
        var (o', cleanup) := ForceAndCleanup(s, n);
        (o', Err(Combined(NativeFailure, ErrorOf(cleanup))))
      else AwaitGraceful(s, n, n.turns)
  }

  function ForceShutdown(o: Owner, n: Outcomes): (Owner, Result<ShutdownReport, Failure>)
  {
    if o.state == Cleaned then (o, Err(OwnerAlreadyCleaned)) else ForceAndCleanup(o.(state := Stopping), n)
  }

  function RetryPrivateCleanup(o: Owner, n: Outcomes): (Owner, Result<(), Failure>)
  {
    if o.state == Cleaned then (o, Err(OwnerAlreadyCleaned))
    else if o.process || o.stdoutThread || o.stderrThread then (o, Err(OwnerStillHasLiveResources))
    else
      var (r, error) := RemoveSession(o, n);
      (if r.session then r else r.(runtime := false, secret := false, state := Cleaned),
       if error.Some? then Err(error.value) else Ok(()))
  }

  function PollHealth(o: Owner, t: Turn): (Owner, Result<(), Failure>)
  {
    if o.state != Ready then (o, Err(OwnerNotRunning))
    else
      var (d, failure) := DrainMonitor(o, true, t.received, t.disconnected);
      (d, if failure.Some? then Err(failure.value)
          else if d.inbox.stdoutEnded then Err(ProtocolStreamEnded)
          else if !d.process then Err(OwnerNotRunning)
          else if t.wrapperStopped.None? then Err(NativeFailure)
          else if t.wrapperStopped.value then Err(WrapperExited)
          else if !d.runtime then Err(RuntimeIdentityUnavailable)
          else if t.runtimeStopped.None? then Err(NativeFailure)
          else if t.runtimeStopped.value then Err(RuntimeExited)
          else if d.inbox.monitorState != Tracking.Bound then Err(UnexpectedLifecycleState)
          else Ok(()))
  }

  function DropOwner(o: Owner, n: Outcomes): Owner
  {
    if o.state == Cleaned then o else AbortAndCleanup(o, n).0
  }

  // ---------------------------------------------------------------- startup

  /** One turn of the readiness wait, and what follows the listening event. */
  datatype StartTurn = StartTurn(
    wrapperStopped: Native<bool>, arrived: bool, disconnected: bool,
    tokenGone: Native<bool>, captured: bool, settling: Turn, listenerReady: bool)

  type Readiness = Option<Result<(), Failure>>

  /** One turn; None is to go on waiting. */
  function ReadyTurn(o: Owner, t: StartTurn): (Owner, Readiness)
  {
    if t.wrapperStopped.None? then (o, Some(Err(NativeFailure)))
    else if t.wrapperStopped.value then (o, Some(Err(WrapperExited)))
    else if !t.arrived || o.inbox.channel == [] then
      (o, if t.disconnected then Some(Err(MonitorDisconnected)) else None)
    else
      var m := o.inbox.channel[0];
      var (b, failure) := ApplyMonitor(Received(o.inbox), m, !m.StdoutEnded?, false);
      var d := o.(inbox := b);
      if m.StdoutEnded? then (d, Some(Err(ProtocolStreamEnded)))
      else if failure.Some? then (d, Some(Err(failure.value)))
      else if !m.EventSeen? then (d, None)
      else match m.event
        case Starting(_, _, _, _) => (d, if t.tokenGone != Some(true) then Some(Err(TokenNotConsumed)) else None)
        case Listening(_, _, _) => (Settle(d, t).0, Some(Settle(d, t).1))
        case Error(_, _, _, _) => (d, Some(Err(LauncherReportedFailure)))
        case _ => (d, Some(Err(StoppedBeforeReadiness)))
  }

  /** What follows the listening event. */
  function Settle(o: Owner, t: StartTurn): (Owner, Result<(), Failure>)
  {
    if t.tokenGone != Some(true) then (o, Err(TokenNotConsumed))
    else if !t.captured then (o, Err(NativeFailure))
    else
      var (s, late) := DrainMonitor(o.(runtime := true), true, t.settling.received, t.settling.disconnected);
      if late.Some? then (s, Err(late.value))
      else if !t.listenerReady then (s, Err(ReadinessTimeout))
      else (s.(state := Ready), Ok(()))
  }

  function AwaitReady(o: Owner, turns: seq<StartTurn>): (Owner, Result<(), Failure>)
    decreases |turns|
  {
    if turns == [] then (o, Err(ReadinessTimeout))
    else
      var (d, verdict) := ReadyTurn(o, turns[0]);
      if verdict.Some? then (d, verdict.value) else AwaitReady(d, turns[1..])
  }

  /** A failed start is aborted before the error is returned. */
  function Launch(o: Owner, turns: seq<StartTurn>, n: Outcomes): (Owner, Result<(), Failure>)
  {
    var (ready, r) := AwaitReady(o, turns);
    if r.Ok? then (ready, r)
    else
      var (o', cleanup) := AbortAndCleanup(ready, n);
      (o', Err(Combined(r.error, ErrorOf(cleanup))))
  }

  // ------------------------------------------------------------- invariant

  /** The state carried by the last message that carries one. */
  function StateAfter(messages: seq<Message>): Tracking.State
  {
    if messages == [] then Tracking.AwaitingStart
    else
      var last := messages[|messages| - 1];
      if last.EventSeen? || last.StdoutEnded? then last.state else StateAfter(messages[..|messages| - 1])
  }

  /** The count carried by the last sign-off of the stdout thread. */
  function IgnoredAfter(messages: seq<Message>): nat
  {
    if messages == [] then 0
    else
      var last := messages[|messages| - 1];
      if last.StdoutEnded? then last.ignored else IgnoredAfter(messages[..|messages| - 1])
  }

  predicate EndedIn(messages: seq<Message>) { exists i :: 0 <= i < |messages| && messages[i].StdoutEnded? }

  /** `all` is everything the monitor threads ever send. */
  ghost predicate Consistent(b: Inbox, all: seq<Message>)
  {
    && b.consumed + b.channel == all
    && b.monitorState == StateAfter(b.consumed)
    && b.ignoredLines == IgnoredAfter(b.consumed)
    && (b.stdoutEnded <==> EndedIn(b.consumed))
  }

  ghost predicate Inv(o: Owner, all: seq<Message>)
  {
    && Consistent(o.inbox, all)
    && (!o.process ==> o.jobSeenEmpty && !o.stdoutThread && !o.stderrThread)
    && (!o.session <==> o.filesRemoved)
    && (o.filesRemoved ==> !o.process && o.jobSeenEmpty)
    && !o.unsafeRemoval
    && (o.state == Cleaned ==> !o.session && !o.process && !o.runtime && !o.secret)
    && (!o.process && o.state != Cleaned ==> o.session)
  }

  lemma StateAfterAppend(messages: seq<Message>, m: Message)
    ensures StateAfter(messages + [m]) == if m.EventSeen? || m.StdoutEnded? then m.state else StateAfter(messages)
    ensures IgnoredAfter(messages + [m]) == if m.StdoutEnded? then m.ignored else IgnoredAfter(messages)
    ensures EndedIn(messages + [m]) <==> EndedIn(messages) || m.StdoutEnded?
  {
    var more := messages + [m];
    assert more[..|messages|] == messages && more[|messages|] == m;
    assert forall i :: 0 <= i < |messages| ==> more[i] == messages[i];
    if EndedIn(messages) {
      var i :| 0 <= i < |messages| && messages[i].StdoutEnded?;
      assert more[i].StdoutEnded?;
    }
  }

  predicate IsFailure(m: Message) { m.ProtocolFailure? || m.StdoutReadFailure? || m.StderrReadFailure? }

  /** `now` extends `before`, by messages that are no failures. */
  ghost predicate Unfailing(before: seq<Message>, now: seq<Message>)
  {
    before <= now && forall i :: |before| <= i < |now| ==> !IsFailure(now[i])
  }

  lemma UnfailingItself(messages: seq<Message>)
    ensures Unfailing(messages, messages)
  {
  }

  lemma UnfailingFollows(a: seq<Message>, b: seq<Message>, c: seq<Message>)
    requires Unfailing(a, b) && Unfailing(b, c)
    ensures Unfailing(a, c)
  {
    assert forall i :: 0 <= i < |b| ==> c[i] == b[i];
  }

  lemma ReceiveKeeps(b: Inbox, strict: bool, stopping: bool, all: seq<Message>)
    requires Consistent(b, all) && b.channel != []
    ensures var b' := ReceiveOne(b, strict, stopping).0;
            && Consistent(b', all)
            && b'.consumed == b.consumed + [b.channel[0]] && b'.channel == b.channel[1..]
  {
    hide StateAfter, IgnoredAfter, EndedIn;
    StateAfterAppend(b.consumed, b.channel[0]);
    assert (b.consumed + [b.channel[0]]) + b.channel[1..] == b.consumed + b.channel;
  }

  lemma {:induction false} DrainKeeps(
      b: Inbox, strict: bool, stopping: bool, count: nat, disconnected: bool, all: seq<Message>)
    requires Consistent(b, all)
    ensures var (b', failure) := Drain(b, strict, stopping, count, disconnected);
            && Consistent(b', all)
            && b.consumed <= b'.consumed
            && (failure.None? && count >= |b.channel| ==> b'.channel == [])
    decreases |b.channel|
  {
    hide StateAfter, IgnoredAfter, EndedIn, Consistent, ReceiveOne;
    if count > 0 && b.channel != [] {
      ReceiveKeeps(b, strict, stopping, all);
      var (b', failure) := ReceiveOne(b, strict, stopping);
      if failure.None? { DrainKeeps(b', strict, stopping, count - 1, disconnected, all); }
    }
  }

  lemma StrictReceiveMeetsNoFailure(b: Inbox, stopping: bool)
    requires b.channel != []
    ensures var (b', failure) := ReceiveOne(b, true, stopping);
            failure.None? ==> Unfailing(b.consumed, b'.consumed)
  {
  }

  /** A strict drain that succeeds has met no failure message. */
  lemma {:induction false} StrictDrainMeetsNoFailure(b: Inbox, stopping: bool, count: nat, disconnected: bool)
    ensures var (b', failure) := Drain(b, true, stopping, count, disconnected);
            failure.None? ==> Unfailing(b.consumed, b'.consumed)
    decreases |b.channel|
  {
    hide Unfailing, ReceiveOne;
    UnfailingItself(b.consumed);
    if count > 0 && b.channel != [] {
      StrictReceiveMeetsNoFailure(b, stopping);
      var (b', failure) := ReceiveOne(b, true, stopping);
      ReceiveShortens(b, true, stopping);
      if failure.None? {
        StrictDrainMeetsNoFailure(b', stopping, count - 1, disconnected);
        var end := Drain(b', true, stopping, count - 1, disconnected);
        if end.1.None? { UnfailingFollows(b.consumed, b'.consumed, end.0.consumed); }
      }
    }
  }

  lemma ReceiveShortens(b: Inbox, strict: bool, stopping: bool)
    requires b.channel != []
    ensures |ReceiveOne(b, strict, stopping).0.channel| < |b.channel|
  {
  }

  /** Everything but the inbox. */
  ghost predicate SameResources(a: Owner, b: Owner) { a.(inbox := b.inbox) == b }

  lemma JoinKeeps(o: Owner, strict: bool, n: Outcomes, all: seq<Message>)
    requires Consistent(o.inbox, all)
    ensures var (o', failure) := JoinMonitors(o, strict, n);
            && SameResources(o.(stdoutThread := false, stderrThread := false), o') && Consistent(o'.inbox, all)
            && o.inbox.consumed <= o'.inbox.consumed
            && (failure.None? ==> o'.inbox.channel == [])
            && (strict && failure.None? ==> Unfailing(o.inbox.consumed, o'.inbox.consumed))
  {
    hide StateAfter, IgnoredAfter, EndedIn, Unfailing, Drain, Consistent;
    DrainKeeps(o.inbox, strict, o.state == Stopping, |o.inbox.channel|, true, all);
    StrictDrainMeetsNoFailure(o.inbox, o.state == Stopping, |o.inbox.channel|, true);
  }

  // ------------------------------------------------- every call keeps it

  /** Closing the Job is allowed only once it was seen empty. */
  lemma ReleaseKeeps(o: Owner, strict: bool, n: Outcomes, all: seq<Message>)
    requires Inv(o, all) && o.jobSeenEmpty
    ensures var (o', error) := Release(o, strict, n);
            && Inv(o', all) && o.inbox.consumed <= o'.inbox.consumed && !o'.process
            && (error.None? ==> o'.state == Cleaned)
            && (strict && error.None? ==>
                  o'.inbox.channel == [] && Unfailing(o.inbox.consumed, o'.inbox.consumed))
  {
    hide StateAfter, IgnoredAfter, EndedIn, Unfailing, JoinMonitors;
    var closed := o.(process := false);
    JoinKeeps(closed, strict, n, all);
    var (joined, e1) := JoinMonitors(closed, strict, n);
    assert Release(o, strict, n).0.inbox == joined.inbox;
    assert Release(o, strict, n).1.None? ==> e1.None?;
  }

  ghost predicate Honest(r: Result<ShutdownReport, Failure>, o': Owner)
  {
    r.Ok? ==>
      && r.value.jobEmpty && r.value.wrapperExit.Some? && r.value.runtimeExit.Some?
      && r.value.sessionRemoved && o'.state == Cleaned && o'.filesRemoved && o'.jobSeenEmpty
  }

  lemma FinishKeeps(o: Owner, kind: Kind, strict: bool, n: Outcomes, all: seq<Message>)
    requires Inv(o, all)
    ensures var (o', r) := FinishCleanup(o, kind, strict, n);
            && Inv(o', all) && Honest(r, o') && o.inbox.consumed <= o'.inbox.consumed
            && (r.Ok? ==> r.value.kind == kind)
            && (strict && r.Ok? ==>
                  o'.inbox.channel == [] && Unfailing(o.inbox.consumed, o'.inbox.consumed))
  {
    hide StateAfter, IgnoredAfter, EndedIn, Unfailing, Release;
    var jobEmpty := o.process && n.emptyAtFinish == Some(true);
    var seen := o.(jobSeenEmpty := o.jobSeenEmpty || jobEmpty);
    assert Inv(seen, all);
    if jobEmpty { ReleaseKeeps(seen, strict, n, all); }
  }

  lemma ForceKeeps(o: Owner, n: Outcomes, all: seq<Message>)
    requires Inv(o, all)
    ensures var (o', r) := ForceAndCleanup(o, n);
            Inv(o', all) && Honest(r, o') && o.inbox.consumed <= o'.inbox.consumed && (r.Ok? ==> r.value.kind == Forced)
  {
    hide StateAfter, IgnoredAfter, EndedIn, Unfailing, FinishCleanup, Honest;
    var (t, primary) := if o.process then Terminate(o, n) else (o, Some(OwnerNotRunning));
    assert Inv(t, all);
    FinishKeeps(t, Forced, false, n, all);
    var (o', r) := FinishCleanup(t, Forced, false, n);
    if primary.Some? { ErrorIsHonest(Combined(primary.value, ErrorOf(r)), o'); }
  }

  lemma ErrorIsHonest(error: Failure, o: Owner)
    ensures Honest(Err(error), o)
  {
  }

  lemma AbortKeeps(o: Owner, n: Outcomes, all: seq<Message>)
    requires Inv(o, all) && o.state != Cleaned
    ensures var (o', r) := AbortAndCleanup(o, n);
            Inv(o', all) && o.inbox.consumed <= o'.inbox.consumed && (r.Ok? ==> o'.state == Cleaned)
  {
    hide StateAfter, IgnoredAfter, EndedIn, Unfailing, Release;
    var stopping := o.(state := Stopping);
    var (t, primary) := if o.process then Terminate(stopping, n) else (stopping, None);
    assert Inv(t, all);
    if t.jobSeenEmpty { ReleaseKeeps(t, false, n, all); }
  }

  /** What a graceful report proves about the monitor messages. */
  ghost predicate Vouches(o: Owner, o': Owner, r: Result<ShutdownReport, Failure>)
  {
    r.Ok? && r.value.kind == Graceful ==>
      && o'.inbox.channel == []
      && Unfailing(o.inbox.consumed, o'.inbox.consumed)
      && exists k :: 0 <= k <= |o'.inbox.consumed| && StateAfter(o'.inbox.consumed[..k]) == Tracking.Halted
  }

  lemma DrainKeepsInv(o: Owner, strict: bool, count: nat, disconnected: bool, all: seq<Message>)
    requires Inv(o, all)
    ensures var (d, failure) := DrainMonitor(o, strict, count, disconnected);
            && Inv(d, all) && o.inbox.consumed <= d.inbox.consumed && d.state == o.state
            && (strict && failure.None? ==> Unfailing(o.inbox.consumed, d.inbox.consumed))
  {
    hide StateAfter, IgnoredAfter, EndedIn, Drain, Unfailing;
    DrainKeeps(o.inbox, strict, o.state == Stopping, count, disconnected, all);
    StrictDrainMeetsNoFailure(o.inbox, o.state == Stopping, count, disconnected);
  }

  lemma VouchesErr(o: Owner, o': Owner, r: Result<ShutdownReport, Failure>)
    requires r.Err? || r.value.kind == Forced
    ensures Vouches(o, o', r)
  {
  }

  lemma GracefulFinishVouches(o: Owner, d: Owner, n: Outcomes, all: seq<Message>)
    requires Inv(d, all) && d.inbox.monitorState == Tracking.Halted
    requires Unfailing(o.inbox.consumed, d.inbox.consumed)
    ensures var (o', r) := FinishCleanup(d, Graceful, true, n); Vouches(o, o', r)
  {
    hide StateAfter, IgnoredAfter, EndedIn, Unfailing, FinishCleanup, Honest;
    FinishKeeps(d, Graceful, true, n, all);
    var (o', r) := FinishCleanup(d, Graceful, true, n);
    assert o'.inbox.consumed[..|d.inbox.consumed|] == d.inbox.consumed;
    if r.Ok? { UnfailingFollows(o.inbox.consumed, d.inbox.consumed, o'.inbox.consumed); }
  }

  lemma {:induction false} AwaitKeeps(o: Owner, n: Outcomes, turns: seq<Turn>, all: seq<Message>)
    requires Inv(o, all)
    ensures var (o', r) := AwaitGraceful(o, n, turns);
            Inv(o', all) && Honest(r, o') && Vouches(o, o', r) && o.inbox.consumed <= o'.inbox.consumed
    decreases |turns|
  {
    hide StateAfter, IgnoredAfter, EndedIn, Unfailing, FinishCleanup, ForceAndCleanup, DrainMonitor, Honest,
      Vouches, Inv;
    var (o', r) := AwaitGraceful(o, n, turns);
    if turns == [] {
      ForceKeeps(o, n, all);
      VouchesErr(o, o', r);
    } else {
      var t := turns[0];
      var (d, failure) := DrainMonitor(o, true, t.received, t.disconnected);
      DrainKeepsInv(o, true, t.received, t.disconnected, all);
      ForceKeeps(d, n, all);
      if failure.Some? {
        ErrorIsHonest(Combined(failure.value, ErrorOf(ForceAndCleanup(d, n).1)), o');
        VouchesErr(o, o', r);
      } else {
        match GracefulObserved(d, t) {
          case Err(error) =>
            ErrorIsHonest(error, o');
            VouchesErr(o, o', r);
          case Ok(true) =>
            FinishKeeps(d, Graceful, true, n, all);
            GracefulFinishVouches(o, d, n, all);
          case Ok(false) =>
            if t.deadlinePassed {
              VouchesErr(o, o', r);
            } else {
              AwaitKeeps(d, n, turns[1..], all);
              VouchesFrom(o, d, o', r);
            }
        }
      }
    }
  }

  lemma VouchesFrom(o: Owner, d: Owner, o': Owner, r: Result<ShutdownReport, Failure>)
    requires Vouches(d, o', r) && Unfailing(o.inbox.consumed, d.inbox.consumed)
    ensures Vouches(o, o', r)
  {
    hide Unfailing, StateAfter;
    if r.Ok? && r.value.kind == Graceful {
      UnfailingFollows(o.inbox.consumed, d.inbox.consumed, o'.inbox.consumed);
    }
  }

  lemma ReadyTurnKeeps(o: Owner, t: StartTurn, all: seq<Message>)
    requires Inv(o, all) && o.state == Starting && o.process
    ensures var (o', verdict) := ReadyTurn(o, t);
            && Inv(o', all) && o'.state != Cleaned
            && (verdict.None? ==> o'.state == Starting && o'.process)
  {
    hide StateAfter, IgnoredAfter, EndedIn, Drain;
    if o.inbox.channel != [] && t.arrived {
      var m := o.inbox.channel[0];
      var (b, failure) := ApplyMonitor(Received(o.inbox), m, !m.StdoutEnded?, false);
      StateAfterAppend(o.inbox.consumed, m);
      assert Received(o.inbox).consumed + Received(o.inbox).channel == o.inbox.consumed + o.inbox.channel;
      var d := o.(inbox := b);
      assert Inv(d, all);
      DrainKeepsInv(d.(runtime := true), true, t.settling.received, t.settling.disconnected, all);
    }
  }

  lemma {:induction false} AwaitReadyKeeps(o: Owner, turns: seq<StartTurn>, all: seq<Message>)
    requires Inv(o, all) && o.state == Starting && o.process
    ensures var (o', r) := AwaitReady(o, turns);
            Inv(o', all) && o'.state != Cleaned
    decreases |turns|
  {
    hide ReadyTurn, Inv;
    if turns != [] {
      ReadyTurnKeeps(o, turns[0], all);
      var (d, verdict) := ReadyTurn(o, turns[0]);
      if verdict.None? { AwaitReadyKeeps(d, turns[1..], all); }
    }
  }

  lemma {:induction false} ReadyOnSuccess(o: Owner, turns: seq<StartTurn>)
    ensures AwaitReady(o, turns).1.Ok? ==> AwaitReady(o, turns).0.state == Ready
  {
    if AwaitReady(o, turns).1.Ok? { ReadyMeansListening(o, turns); }
  }

  lemma ShutdownKeeps(o: Owner, n: Outcomes, all: seq<Message>)
    requires Inv(o, all)
    ensures var (o', r) := Shutdown(o, n);
            Inv(o', all) && Honest(r, o') && Vouches(o, o', r)
  {
    hide StateAfter, IgnoredAfter, EndedIn, Unfailing, AwaitGraceful, ForceAndCleanup, Honest, Vouches;
    var (o', r) := Shutdown(o, n);
    if o.state == Stopping {
      AwaitKeeps(o, n, n.turns, all);
    } else if o.state != Cleaned {
      var s := o.(state := Stopping);
      assert Inv(s, all);
      ForceKeeps(s, n, all);
      AwaitKeeps(s, n, n.turns, all);
      UnfailingItself(o.inbox.consumed);
      if s.session && n.controlFile { VouchesFrom(o, s, o', r); }
    }
    if r.Err? {
      ErrorIsHonest(r.error, o');
      VouchesErr(o, o', r);
    }
  }

  // ------------------------------------------------------------------- runs

  datatype Call =
    | Start(turns: seq<StartTurn>, n: Outcomes)
    | Health(turn: Turn)
    | Stop(n: Outcomes)
    | Force(n: Outcomes)
    | Retry(n: Outcomes)
    | Drop(n: Outcomes)

  /** One call on the owner, and the report it returns, if it returns one. */
  function Perform(o: Owner, call: Call): (Owner, Option<ShutdownReport>)
  {
    match call
    case Start(turns, n) => (if o.state == Starting && o.process then Launch(o, turns, n).0 else o, None)
    case Health(turn) => (PollHealth(o, turn).0, None)
    case Stop(n) => (Shutdown(o, n).0, ReportOf(Shutdown(o, n).1))
    case Force(n) => (ForceShutdown(o, n).0, ReportOf(ForceShutdown(o, n).1))
    case Retry(n) => (RetryPrivateCleanup(o, n).0, None)
    case Drop(n) => (DropOwner(o, n), None)
  }

  function ReportOf(r: Result<ShutdownReport, Failure>): Option<ShutdownReport>
  {
    if r.Ok? then Some(r.value) else None
  }

  /** The owner just after its process and threads were created. */
  function Created(all: seq<Message>): Owner
  {
    Owner(true, true, false, true, true, true, Starting, Inbox(Tracking.AwaitingStart, false, 0, [], all),
          false, false, false)
  }

  function PerformAll(o: Owner, calls: seq<Call>): Owner
    decreases |calls|
  {
    if calls == [] then o else PerformAll(Perform(o, calls[0]).0, calls[1..])
  }

  lemma PerformKeepsInv(o: Owner, call: Call, all: seq<Message>)
    requires Inv(o, all)
    ensures Inv(Perform(o, call).0, all)
    ensures var (o', report) := Perform(o, call);
            report.Some? ==> Honest(Ok(report.value), o') && Vouches(o, o', Ok(report.value))
  {
    hide StateAfter, IgnoredAfter, EndedIn, Unfailing, Honest, Vouches, AwaitReady, AbortAndCleanup, Shutdown,
      ForceAndCleanup, DrainMonitor;
    match call {
      case Start(turns, n) =>
        if o.state == Starting && o.process {
          AwaitReadyKeeps(o, turns, all);
          var (ready, r) := AwaitReady(o, turns);
          if r.Err? { AbortKeeps(ready, n, all); }
        }
      case Health(turn) =>
        if o.state == Ready { DrainKeepsInv(o, true, turn.received, turn.disconnected, all); }
      case Stop(n) => ShutdownKeeps(o, n, all);
      case Force(n) =>
        if o.state != Cleaned {
          var s := o.(state := Stopping);
          assert Inv(s, all);
          ForceKeeps(s, n, all);
          var (o', r) := ForceAndCleanup(s, n);
          if r.Ok? { VouchesErr(o, o', r); }
        }
      case Retry(n) =>
      case Drop(n) => if o.state != Cleaned { AbortKeeps(o, n, all); }
    }
  }

  lemma {:induction false} RunKeepsInv(o: Owner, calls: seq<Call>, all: seq<Message>)
    requires Inv(o, all)
    ensures Inv(PerformAll(o, calls), all)
    decreases |calls|
  {
    hide Inv, Perform;
    if calls != [] {
      PerformKeepsInv(o, calls[0], all);
      RunKeepsInv(Perform(o, calls[0]).0, calls[1..], all);
    }
  }

  lemma CreatedIsInv(all: seq<Message>)
    ensures Inv(Created(all), all)
  {
    assert [] + all == all;
  }

  /** Main result on resources. After every sequence of calls, whatever every
      native call answered: the private files are removed only after the Job
      was observed empty and its handle closed; a cleaned owner holds no
      process, thread, session, runtime handle or secret; and a report means
      an empty Job, both exit codes and a removed session. */
  lemma CleanupIsSafe(calls: seq<Call>, all: seq<Message>, call: Call)
    ensures var o := PerformAll(Created(all), calls);
            var (o', report) := Perform(o, call);
            && !o.unsafeRemoval
            && (o.filesRemoved ==> o.jobSeenEmpty && !o.process)
            && (o.state == Cleaned ==>
                  && o.filesRemoved && !o.session && !o.process && !o.runtime && !o.secret
                  && !o.stdoutThread && !o.stderrThread)
            && (report.Some? ==>
                  && report.value.jobEmpty && report.value.wrapperExit.Some? && report.value.runtimeExit.Some?
                  && report.value.sessionRemoved && o'.state == Cleaned && o'.filesRemoved)
  {
    hide Perform, PerformAll, StateAfter, Unfailing, Vouches;
    CreatedIsInv(all);
    RunKeepsInv(Created(all), calls, all);
    PerformKeepsInv(PerformAll(Created(all), calls), call, all);
  }

  /** Cleaned is permanent. */
  lemma CleanedIsPermanent(o: Owner, call: Call)
    requires o.state == Cleaned
    ensures Perform(o, call) == (o, None)
  {
  }

  /** Native calls that all succeed. */
  ghost predicate AllWell(n: Outcomes)
  {
    && n.terminated && n.emptyAfterTerminate == Some(true) && n.emptyAtFinish == Some(true)
    && n.wrapperExit.Some? && n.wrapperExit.value.Some? && n.runtimeExit.Some? && n.runtimeExit.value.Some?
    && !n.stdoutPanics && !n.stderrPanics && n.securityVerified && n.filesDeleted
  }

  lemma {:induction false} LenientDrainSucceeds(b: Inbox, count: nat, disconnected: bool)
    ensures Drain(b, false, true, count, disconnected).1.None?
    decreases |b.channel|
  {
    if count > 0 && b.channel != [] {
      LenientDrainSucceeds(ReceiveOne(b, false, true).0, count - 1, disconnected);
    }
  }

  /** Main result, the other direction: when native calls succeed, a forced
      shutdown of a running owner always cleans up and reports; and a session
      that could not be removed then is removed by a later retry. */
  lemma CleanupSucceeds(o: Owner, n: Outcomes)
    requires o.state != Cleaned && o.process && o.runtime && o.session && AllWell(n)
    ensures var (o', r) := ForceShutdown(o, n); r.Ok? && r.value.kind == Forced && o'.state == Cleaned
    ensures var (o1, r1) := ForceShutdown(o, n.(filesDeleted := false));
            var (o2, r2) := RetryPrivateCleanup(o1, n);
            r1.Err? && o1.session && !o1.process && r2.Ok? && o2.state == Cleaned
  {
    hide Release;
    var t := Terminate(o.(state := Stopping), n).0;
    var seen := t.(jobSeenEmpty := true);
    LenientReleaseSucceeds(seen, n);
    LenientReleaseSucceeds(seen, n.(filesDeleted := false));
  }

  lemma LenientReleaseSucceeds(o: Owner, n: Outcomes)
    requires o.state == Stopping && o.session && !n.stdoutPanics && !n.stderrPanics && n.securityVerified
    ensures var (o', failure) := Release(o, false, n);
            && !o'.process && !o'.stdoutThread && !o'.stderrThread
            && (o'.session <==> !n.filesDeleted)
            && (failure.None? <==> n.filesDeleted)
            && o'.state == if n.filesDeleted then Cleaned else Stopping
  {
    hide Drain;
    LenientDrainSucceeds(o.inbox, |o.inbox.channel|, true);
  }

  // ----------------------------------------- a start that never had an owner

  /** Cleanup when the process was created but its pipes or threads were not:
      the Job handle is closed in any case, the files go only after the Job
      was observed empty. */
  function AbandonSpawned(o: Owner, primary: Failure, n: Outcomes): (Owner, Failure)
    requires o.process
  {
    var (t, error) := Terminate(o, n);
    var closed := t.(process := false);
    if n.emptyAfterTerminate != Some(true) then
      (closed, Combined(primary, Some(if error.Some? then error.value else JobDidNotBecomeEmpty)))
    else
      var panics := When((o.stdoutThread && n.stdoutPanics) || (o.stderrThread && n.stderrPanics), ThreadPanicked);
      var (removed, removal) := RemoveSession(closed.(stdoutThread := false, stderrThread := false), n);
      (removed, Combined(primary, First(error, First(panics, removal))))
  }

  /** An abandoned start removes the files exactly when the Job was observed
      empty and deletion worked, never earlier, and still reports its cause. */
  lemma AbandonedStartIsSafe(o: Owner, primary: Failure, n: Outcomes)
    requires o.process && o.session && !o.unsafeRemoval && !o.filesRemoved
    ensures var (o', error) := AbandonSpawned(o, primary, n);
            && !o'.process && !o'.unsafeRemoval
            && (o'.filesRemoved <==> n.emptyAfterTerminate == Some(true) && n.filesDeleted)
            && (o'.filesRemoved ==> o'.jobSeenEmpty)
            && (o'.session <==> !o'.filesRemoved)
            && (error == primary || (error.CleanupAfter? && error.primary == primary))
            && (!o'.filesRemoved ==> error.CleanupAfter? && error.primary == primary)
  {
  }

  /** The listening event is among the messages received after `from`. */
  predicate HeardListening(from: seq<Message>, now: seq<Message>)
  {
    && from <= now
    && exists k :: |from| <= k < |now| && now[k].EventSeen? && now[k].event.Listening?
  }

  /** In some turn the token was gone, the runtime captured and its listener ready. */
  predicate SettledIn(turns: seq<StartTurn>)
  {
    exists i :: 0 <= i < |turns| && turns[i].tokenGone == Some(true) && turns[i].captured && turns[i].listenerReady
  }

  /** Becoming ready means the listening event was received, the runtime was
      captured, and the one-time token was gone by then. */
  lemma {:induction false} ReadyMeansListening(o: Owner, turns: seq<StartTurn>)
    requires AwaitReady(o, turns).1.Ok?
    ensures var o' := AwaitReady(o, turns).0;
            && o'.state == Ready && o'.runtime
            && HeardListening(o.inbox.consumed, o'.inbox.consumed)
    ensures SettledIn(turns)
    decreases |turns|
  {
    hide ReadyTurn, HeardListening, SettledIn;
    var t := turns[0];
    var (d, verdict) := ReadyTurn(o, t);
    TurnMeans(o, t);
    if verdict.Some? {
      HeardNow(o.inbox.consumed, o.inbox.channel[0], d.inbox.consumed);
      SettledNow(turns);
    } else {
      ReadyMeansListening(d, turns[1..]);
      if d.inbox.consumed != o.inbox.consumed {
        HeardLater(o.inbox.consumed, o.inbox.channel[0], AwaitReady(o, turns).0.inbox.consumed);
      }
      SettledLater(turns);
    }
  }

  /** A turn that goes on has received at most one message; one that succeeds
      has received the listening event first and has settled. */
  lemma TurnMeans(o: Owner, t: StartTurn)
    ensures var (d, verdict) := ReadyTurn(o, t);
            && (verdict.None? ==>
                  || d.inbox.consumed == o.inbox.consumed
                  || (o.inbox.channel != [] && d.inbox.consumed == o.inbox.consumed + [o.inbox.channel[0]]))
            && (verdict.Some? && verdict.value.Ok? ==>
                  && d.state == Ready && d.runtime && o.inbox.channel != []
                  && o.inbox.channel[0].EventSeen? && o.inbox.channel[0].event.Listening?
                  && o.inbox.consumed + [o.inbox.channel[0]] <= d.inbox.consumed
                  && t.tokenGone == Some(true) && t.captured && t.listenerReady)
  {
    hide Settle;
    if o.inbox.channel != [] {
      var m := o.inbox.channel[0];
      SettleMeans(o.(inbox := ApplyMonitor(Received(o.inbox), m, !m.StdoutEnded?, false).0), t);
    }
  }

  lemma SettleMeans(o: Owner, t: StartTurn)
    ensures var (d, r) := Settle(o, t);
            r.Ok? ==>
              && d.state == Ready && d.runtime && o.inbox.consumed <= d.inbox.consumed
              && t.tokenGone == Some(true) && t.captured && t.listenerReady
  {
    hide Drain;
    DrainExtends(o.inbox, true, o.state == Stopping, t.settling.received, t.settling.disconnected);
  }

  lemma HeardNow(from: seq<Message>, m: Message, now: seq<Message>)
    requires from + [m] <= now && m.EventSeen? && m.event.Listening?
    ensures HeardListening(from, now)
  {
    assert now[|from|] == (from + [m])[|from|];
    assert from == (from + [m])[..|from|];
  }

  lemma HeardLater(from: seq<Message>, m: Message, now: seq<Message>)
    requires HeardListening(from + [m], now)
    ensures HeardListening(from, now)
  {
    assert from == (from + [m])[..|from|];
  }

  lemma SettledNow(turns: seq<StartTurn>)
    requires turns != [] && turns[0].tokenGone == Some(true) && turns[0].captured && turns[0].listenerReady
    ensures SettledIn(turns)
  {
  }

  lemma SettledLater(turns: seq<StartTurn>)
    requires turns != [] && SettledIn(turns[1..])
    ensures SettledIn(turns)
  {
    var i :| 0 <= i < |turns[1..]| && turns[1..][i].tokenGone == Some(true) && turns[1..][i].captured
             && turns[1..][i].listenerReady;
    assert turns[i + 1] == turns[1..][i];
  }

  lemma {:induction false} DrainExtends(b: Inbox, strict: bool, stopping: bool, count: nat, disconnected: bool)
    ensures b.consumed <= Drain(b, strict, stopping, count, disconnected).0.consumed
    decreases |b.channel|
  {
    if count > 0 && b.channel != [] {
      DrainExtends(ReceiveOne(b, strict, stopping).0, strict, stopping, count - 1, disconnected);
    }
  }

  // -------------------------------------------------- what a report tells

  /** The exit codes are those each process was seen to have. */
  ghost predicate Accurate(r: Result<ShutdownReport, Failure>, o': Owner, n: Outcomes)
  {
    r.Ok? ==>
      && n.wrapperExit == Some(r.value.wrapperExit) && n.runtimeExit == Some(r.value.runtimeExit)
      && n.emptyAtFinish == Some(true)
      && r.value.ignoredLines == o'.inbox.ignoredLines
  }

  lemma FinishIsAccurate(o: Owner, kind: Kind, strict: bool, n: Outcomes)
    ensures var (o', r) := FinishCleanup(o, kind, strict, n); Accurate(r, o', n)
  {
    hide Release;
  }

  lemma ForceIsAccurate(o: Owner, n: Outcomes)
    ensures var (o', r) := ForceAndCleanup(o, n); Accurate(r, o', n) && (r.Ok? ==> n.terminated)
  {
    hide FinishCleanup;
    var (t, primary) := if o.process then Terminate(o, n) else (o, Some(OwnerNotRunning));
    FinishIsAccurate(t, Forced, false, n);
  }

  lemma {:induction false} AwaitIsAccurate(o: Owner, n: Outcomes, turns: seq<Turn>)
    ensures var (o', r) := AwaitGraceful(o, n, turns); Accurate(r, o', n)
    decreases |turns|
  {
    hide FinishCleanup, ForceAndCleanup, DrainMonitor, GracefulObserved;
    ForceIsAccurate(o, n);
    if turns != [] {
      var (d, failure) := DrainMonitor(o, true, turns[0].received, turns[0].disconnected);
      ForceIsAccurate(d, n);
      FinishIsAccurate(d, Graceful, true, n);
      AwaitIsAccurate(d, n, turns[1..]);
    }
  }

  /** Main result on reports: after any run, a report names the exit code of
      the wrapper and of the runtime as they were observed, and the number of
      ignored lines the stdout thread signed off with. */
  lemma ReportsAreAccurate(calls: seq<Call>, all: seq<Message>, call: Call)
    ensures var o := PerformAll(Created(all), calls);
            var (o', report) := Perform(o, call);
            report.Some? ==>
              && (call.Stop? || call.Force?)
              && call.n.wrapperExit == Some(report.value.wrapperExit)
              && call.n.runtimeExit == Some(report.value.runtimeExit)
              && call.n.emptyAtFinish == Some(true)
              && report.value.ignoredLines == IgnoredAfter(o'.inbox.consumed)
              && (call.Force? ==> report.value.kind == Forced)
  {
    hide PerformAll, StateAfter, IgnoredAfter, EndedIn, AwaitGraceful, ForceAndCleanup, Vouches, PollHealth, Launch,
      RetryPrivateCleanup, DropOwner, Unfailing;
    CreatedIsInv(all);
    RunKeepsInv(Created(all), calls, all);
    var o := PerformAll(Created(all), calls);
    PerformKeepsInv(o, call, all);
    if call.Stop? {
      var s := o.(state := Stopping);
      AwaitIsAccurate(o, call.n, call.n.turns);
      AwaitIsAccurate(s, call.n, call.n.turns);
    } else if call.Force? {
      ForceIsAccurate(o.(state := Stopping), call.n);
      if o.state != Cleaned { ForceKeeps(o.(state := Stopping), call.n, all); }
    }
  }

  // --------------------------------------------------- what draining accepts

  /** A message that a strict drain takes without complaint. */
  predicate Harmless(m: Message, stopping: bool)
  {
    match m
    case EventSeen(_, event) =>
      event.Starting? || event.Listening? || (stopping && (event.Stopping? || event.Stopped?))
    case StdoutEnded(_, _) => stopping
    case _ => false
  }

  ghost predicate AllHarmless(messages: seq<Message>, count: nat, stopping: bool)
  {
    forall i :: 0 <= i < |messages| && i < count ==> Harmless(messages[i], stopping)
  }

  lemma ReceiveIsExact(b: Inbox, stopping: bool)
    requires b.channel != []
    ensures ReceiveOne(b, true, stopping).1.None? <==> Harmless(b.channel[0], stopping)
  {
  }

  /** A strict drain succeeds exactly on harmless messages, from threads that
      are still connected unless the owner is stopping, and then has received
      as many as it was to. */
  lemma {:induction false} DrainIsExact(b: Inbox, stopping: bool, count: nat, disconnected: bool)
    ensures var (b', failure) := Drain(b, true, stopping, count, disconnected);
            && (failure.None? <==> AllHarmless(b.channel, count, stopping) && (disconnected ==> stopping))
            && (failure.None? ==> b'.channel == b.channel[Min(count, |b.channel|)..])
    decreases |b.channel|
  {
    hide Harmless;
    if count > 0 && b.channel != [] {
      ReceiveIsExact(b, stopping);
      var (b', failure) := ReceiveOne(b, true, stopping);
      assert b'.channel == b.channel[1..];
      if failure.None? {
        DrainIsExact(b', stopping, count - 1, disconnected);
        assert forall i :: 0 < i < |b.channel| ==> b.channel[i] == b.channel[1..][i - 1];
        if AllHarmless(b.channel, count, stopping) {
          forall i | 0 <= i < |b'.channel| && i < count - 1 ensures Harmless(b'.channel[i], stopping) {
            assert b'.channel[i] == b.channel[i + 1];
          }
        }
      }
    }
  }

  /** Main result on health: a poll is content exactly when the owner is ready,
      both processes are still running, everything that arrived is harmless,
      and the last reported state is listening. */
  lemma HealthIsExact(o: Owner, t: Turn, all: seq<Message>)
    requires Inv(o, all)
    ensures var received := all[..|o.inbox.consumed| + Min(t.received, |o.inbox.channel|)];
            PollHealth(o, t).1.Ok? <==>
              && o.state == Ready && o.process && o.runtime
              && t.wrapperStopped == Some(false) && t.runtimeStopped == Some(false) && !t.disconnected
              && AllHarmless(o.inbox.channel, t.received, false)
              && !EndedIn(received) && StateAfter(received) == Tracking.Bound
  {
    hide StateAfter, IgnoredAfter, EndedIn, Drain, Harmless;
    if o.state == Ready {
      DrainIsExact(o.inbox, false, t.received, t.disconnected);
      DrainKeeps(o.inbox, true, false, t.received, t.disconnected, all);
      var (b, failure) := Drain(o.inbox, true, false, t.received, t.disconnected);
      if failure.None? {
        var k := Min(t.received, |o.inbox.channel|);
        ConsumedIs(o.inbox, b, k, all);
      }
    }
  }

  lemma ConsumedIs(b: Inbox, b': Inbox, k: nat, all: seq<Message>)
    requires b.consumed + b.channel == all && b'.consumed + b'.channel == all
    requires k <= |b.channel| && b'.channel == b.channel[k..]
    ensures b'.consumed == all[..|b.consumed| + k]
  {
    assert |b'.consumed| == |b.consumed| + k;
    assert b'.consumed == (b'.consumed + b'.channel)[..|b'.consumed|];
  }

  /** Main result on graceful stops: when the rest of the session is harmless
      and ends halted, the processes are seen to end and native calls succeed,
      shutdown reports itself graceful and leaves a cleaned owner. */
  lemma GracefulStopSucceeds(o: Owner, n: Outcomes, all: seq<Message>)
    requires Inv(o, all) && o.state == Ready && o.process && o.runtime && AllWell(n) && n.controlFile
    requires AllHarmless(o.inbox.channel, |o.inbox.channel|, true) && StateAfter(all) == Tracking.Halted
    requires n.turns != [] && n.turns[0].received >= |o.inbox.channel|
    requires n.turns[0].wrapperStopped == Some(true) && n.turns[0].runtimeStopped == Some(true)
    requires n.turns[0].activeProcesses == Some(0)
    ensures var (o', r) := Shutdown(o, n);
            r.Ok? && r.value.kind == Graceful && o'.state == Cleaned
  {
    hide StateAfter, IgnoredAfter, EndedIn, Drain, Harmless;
    var s, t := o.(state := Stopping), n.turns[0];
    DrainIsExact(o.inbox, true, t.received, t.disconnected);
    DrainKeeps(o.inbox, true, true, t.received, t.disconnected, all);
    var (b, failure) := Drain(o.inbox, true, true, t.received, t.disconnected);
    assert failure.None?;
    assert b.channel == [] && b.consumed + [] == b.consumed;
    var d := s.(inbox := b);
    assert GracefulObserved(d, t) == Ok(true);
    DrainIsExact(b, true, 0, true);
    FinishSucceeds(d, n, Drain(b, true, true, 0, true).0);
  }

  lemma FinishSucceeds(d: Owner, n: Outcomes, b: Inbox)
    requires d.process && d.runtime && d.session && AllWell(n) && d.state == Stopping && d.inbox.channel == []
    requires Drain(d.inbox, true, true, 0, true) == (b, None)
    ensures var (o', r) := FinishCleanup(d, Graceful, true, n);
            r.Ok? && r.value.kind == Graceful && o'.state == Cleaned
  {
    hide Drain;
  }

  /** Main result on abandoned owners: when native calls succeed, dropping one,
      and a start that fails, leave nothing behind. */
  lemma AbandoningCleansUp(o: Owner, n: Outcomes, turns: seq<StartTurn>, all: seq<Message>)
    requires Inv(o, all) && AllWell(n)
    ensures DropOwner(o, n).state == Cleaned
    ensures o.state == Starting && o.process && Launch(o, turns, n).1.Err? ==> Launch(o, turns, n).0.state == Cleaned
  {
    hide StateAfter, IgnoredAfter, EndedIn, AwaitReady, AbortAndCleanup;
    if o.state != Cleaned { AbortCleansUp(o, n, all); }
    if o.state == Starting && o.process {
      AwaitReadyKeeps(o, turns, all);
      AbortCleansUp(AwaitReady(o, turns).0, n, all);
    }
  }

  lemma AbortCleansUp(o: Owner, n: Outcomes, all: seq<Message>)
    requires Inv(o, all) && AllWell(n) && o.state != Cleaned
    ensures AbortAndCleanup(o, n).0.state == Cleaned && AbortAndCleanup(o, n).1.Ok?
  {
    hide StateAfter, IgnoredAfter, EndedIn, Drain;
    LenientDrainSucceeds(o.inbox, |o.inbox.channel|, true);
  }

  /** Which calls are turned away, and with what. */
  lemma RefusalsAreStated(o: Owner, n: Outcomes)
    ensures o.state == Cleaned ==>
              && Shutdown(o, n).1 == Err(OwnerAlreadyCleaned) && ForceShutdown(o, n).1 == Err(OwnerAlreadyCleaned)
              && RetryPrivateCleanup(o, n).1 == Err(OwnerAlreadyCleaned)
    ensures o.state != Cleaned && (o.process || o.stdoutThread || o.stderrThread) ==>
              RetryPrivateCleanup(o, n) == (o, Err(OwnerStillHasLiveResources))
    ensures o.state != Cleaned && !o.process ==>
              var r := ForceShutdown(o, n).1;
              r.Err? && (r.error == OwnerNotRunning || (r.error.CleanupAfter? && r.error.primary == OwnerNotRunning))
  {
    hide Release;
  }

  // ------------------------------------------------- which failure is reported

  /** Whether one of the two monitor threads panicked. */
  ghost predicate APanic(o: Owner, n: Outcomes)
  {
    (o.stdoutThread && n.stdoutPanics) || (o.stderrThread && n.stderrPanics)
  }

  /** Removing the session fails unless its files were deleted from a directory
      whose protection was verified. */
  ghost predicate RemovalFails(o: Owner, n: Outcomes) { o.session && !(n.filesDeleted && n.securityVerified) }

  lemma LenientReleaseIsExact(o: Owner, n: Outcomes)
    requires o.state == Stopping
    ensures Release(o, false, n).1
         == if APanic(o, n) then Some(ThreadPanicked) else if RemovalFails(o, n) then Some(NativeFailure) else None
  {
    hide Drain;
    LenientDrainSucceeds(o.inbox, |o.inbox.channel|, true);
  }

  /** The failure of an abort: the first of termination, waiting for the Job,
      a panicked thread, and the removal of the session. */
  lemma AbortFailuresAreExact(o: Owner, n: Outcomes)
    requires o.process
    ensures var r := AbortAndCleanup(o, n).1;
            ErrorOf(r)
            == if !n.terminated || n.emptyAfterTerminate == None then Some(NativeFailure)
               else if n.emptyAfterTerminate == Some(false) then Some(JobDidNotBecomeEmpty)
               else if APanic(o, n) then Some(ThreadPanicked)
               else if RemovalFails(o, n) then Some(NativeFailure)
               else None
  {
    hide Release;
    LenientReleaseIsExact(Terminate(o.(state := Stopping), n).0, n);
  }

  /** What waiting for the Job and both processes may find wrong, in order. */
  lemma WaitFailuresAreExact(owned: bool, captured: bool, n: Outcomes)
    ensures Waited(owned, captured, n).error
         == if !owned then Some(OwnerNotRunning)
            else if n.emptyAtFinish == None then Some(NativeFailure)
            else if n.emptyAtFinish == Some(false) then Some(JobDidNotBecomeEmpty)
            else if n.wrapperExit == None then Some(NativeFailure)
            else if !captured then Some(RuntimeIdentityUnavailable)
            else if n.runtimeExit == None then Some(NativeFailure)
            else if n.wrapperExit == Some(None) || n.runtimeExit == Some(None) then Some(ProcessDidNotExit)
            else None
  {
  }

  /** The failure of a cleanup after a forced stop: the first of what waiting
      found, a panicked thread, and the removal of the session. */
  lemma FinishFailuresAreExact(o: Owner, kind: Kind, n: Outcomes)
    requires o.state == Stopping
    ensures var r := FinishCleanup(o, kind, false, n).1;
            var waiting := Waited(o.process, o.runtime, n).error;
            ErrorOf(r)
            == if waiting.Some? then waiting
               else if APanic(o, n) then Some(ThreadPanicked)
               else if RemovalFails(o, n) then Some(NativeFailure)
               else None
  {
    hide Release;
    WaitFailuresAreExact(o.process, o.runtime, n);
    var w := Waited(o.process, o.runtime, n);
    LenientReleaseIsExact(o.(jobSeenEmpty := o.jobSeenEmpty || w.jobEmpty), n);
  }

  /** A forced stop keeps its own first failure in front of the cleanup's. */
  lemma ForceFailuresAreExact(o: Owner, n: Outcomes)
    requires o.state != Cleaned && o.process
    ensures var r := ForceShutdown(o, n).1;
            var t := Terminate(o.(state := Stopping), n).0;
            var cleanup := ErrorOf(FinishCleanup(t, Forced, false, n).1);
            var stop := if !n.terminated || n.emptyAfterTerminate == None then Some(NativeFailure)
                        else if n.emptyAfterTerminate == Some(false) then Some(JobDidNotBecomeEmpty) else None;
            ErrorOf(r)
            == match (stop, cleanup)
               case (None, _) => cleanup
               case (Some(f), None) => Some(f)
               case (Some(f), Some(g)) => Some(CleanupAfter(f, g))
  {
    hide FinishCleanup;
  }

  /** What a discontented health poll names: the first of what the messages say,
      then the end of stdout, then each process, then the reported state. */
  lemma HealthFailuresAreExact(o: Owner, t: Turn)
    requires o.state == Ready
    ensures var (d, heard) := DrainMonitor(o, true, t.received, t.disconnected);
            ErrorOf(PollHealth(o, t).1)
            == if heard.Some? then heard
               else if d.inbox.stdoutEnded then Some(ProtocolStreamEnded)
               else if !o.process then Some(OwnerNotRunning)
               else if t.wrapperStopped == None then Some(NativeFailure)
               else if t.wrapperStopped == Some(true) then Some(WrapperExited)
               else if !o.runtime then Some(RuntimeIdentityUnavailable)
               else if t.runtimeStopped == None then Some(NativeFailure)
               else if t.runtimeStopped == Some(true) then Some(RuntimeExited)
               else if d.inbox.monitorState != Tracking.Bound then Some(UnexpectedLifecycleState)
               else None
    ensures forall other: Owner :: other.state != Ready ==> PollHealth(other, t) == (other, Err(OwnerNotRunning))
  {
    hide Drain;
  }

  /** What a strict drain names: the failure of the first message that is not
      harmless, or the loss of the threads. */
  function Complaint(m: Message): Failure
  {
    match m
    case ProtocolFailure(error) => ProtocolRejected(error)
    case StdoutReadFailure => StdoutReadFailed
    case StderrReadFailure => StderrReadFailed
    case StdoutEnded(_, _) => ProtocolStreamEnded
    case EventSeen(_, event) => if event.Error? then LauncherReportedFailure else StoppedUnexpectedly
  }

  /** The first message that is not harmless, among those received. */
  ghost predicate ComplainsAt(channel: seq<Message>, count: nat, stopping: bool, k: nat, failure: Failure)
  {
    && k < |channel| && k < count && AllHarmless(channel, k, stopping)
    && !Harmless(channel[k], stopping) && failure == Complaint(channel[k])
  }

  lemma ComplainsLater(channel: seq<Message>, count: nat, stopping: bool, k: nat, failure: Failure)
    requires count > 0 && channel != [] && Harmless(channel[0], stopping)
    requires ComplainsAt(channel[1..], count - 1, stopping, k, failure)
    ensures ComplainsAt(channel, count, stopping, k + 1, failure)
  {
    hide Harmless;
    assert forall i :: 0 < i < |channel| ==> channel[i] == channel[1..][i - 1];
  }

  lemma HarmlessLater(channel: seq<Message>, count: nat, stopping: bool)
    requires count > 0 && channel != [] && Harmless(channel[0], stopping)
    requires AllHarmless(channel[1..], count - 1, stopping)
    ensures AllHarmless(channel, count, stopping)
  {
    hide Harmless;
    assert forall i :: 0 < i < |channel| ==> channel[i] == channel[1..][i - 1];
  }

  lemma {:induction false} DrainFailuresAreExact(b: Inbox, stopping: bool, count: nat, disconnected: bool)
    ensures var failure := Drain(b, true, stopping, count, disconnected).1;
            failure.Some? ==>
              || (AllHarmless(b.channel, count, stopping) && failure.value == MonitorDisconnected)
              || exists k :: ComplainsAt(b.channel, count, stopping, k, failure.value)
    decreases |b.channel|
  {
    hide Harmless;
    if count > 0 && b.channel != [] {
      ReceiveIsExact(b, stopping);
      ReceiveComplains(b, stopping);
      var (b', failure) := ReceiveOne(b, true, stopping);
      assert b'.channel == b.channel[1..];
      if failure.Some? {
        assert ComplainsAt(b.channel, count, stopping, 0, failure.value);
      } else {
        hide ComplainsAt, AllHarmless, ReceiveOne;
        DrainFailuresAreExact(b', stopping, count - 1, disconnected);
        var later := Drain(b', true, stopping, count - 1, disconnected).1;
        if later.Some? {
          var fewer: nat, failed := count - 1, later.value;
          if k :| ComplainsAt(b'.channel, fewer, stopping, k, failed) {
            ComplainsLater(b.channel, count, stopping, k, later.value);
          } else {
            HarmlessLater(b.channel, count, stopping);
          }
        }
      }
    }
  }

  lemma ReceiveComplains(b: Inbox, stopping: bool)
    requires b.channel != []
    ensures var failure := ReceiveOne(b, true, stopping).1;
            failure.Some? ==> failure.value == Complaint(b.channel[0])
  {
  }

  /** Whether a stop was seen to be graceful, and what keeps it from being seen. */
  lemma ObservationIsExact(o: Owner, t: Turn)
    ensures GracefulObserved(o, t)
         == if o.inbox.monitorState != Tracking.Halted then Ok(false)
            else if !o.process then Err(OwnerNotRunning)
            else if t.wrapperStopped == None then Err(NativeFailure)
            else if !o.runtime then Err(RuntimeIdentityUnavailable)
            else if t.runtimeStopped == None then Err(NativeFailure)
            else if t.wrapperStopped == Some(false) || t.runtimeStopped == Some(false) then Ok(false)
            else if t.activeProcesses == None then Err(NativeFailure)
            else Ok(t.activeProcesses == Some(0))
  {
  }

  /** A stop that cannot be signalled is forced, and says so. */
  lemma UnsignalledStopIsForced(o: Owner, n: Outcomes)
    requires (o.state == Starting || o.state == Ready) && o.session && !n.controlFile
    ensures var s := o.(state := Stopping);
            && Shutdown(o, n).0 == ForceAndCleanup(s, n).0
            && Shutdown(o, n).1
               == Err(match ErrorOf(ForceAndCleanup(s, n).1)
                      case None => NativeFailure
                      case Some(cleanup) => CleanupAfter(NativeFailure, cleanup))
  {
    hide ForceAndCleanup;
  }

  /** What ends the readiness wait in one turn, if the listening event has not
      arrived. */
  lemma ReadinessFailuresAreExact(o: Owner, t: StartTurn)
    requires !(o.inbox.channel != [] && o.inbox.channel[0].EventSeen? && o.inbox.channel[0].event.Listening?)
    ensures ReadyTurn(o, t).1
         == if t.wrapperStopped == None then Some(Err(NativeFailure))
            else if t.wrapperStopped == Some(true) then Some(Err(WrapperExited))
            else if !t.arrived || o.inbox.channel == [] then
              if t.disconnected then Some(Err(MonitorDisconnected)) else None
            else
              var m := o.inbox.channel[0];
              if m.EventSeen? && m.event.Starting? then
                if t.tokenGone == Some(true) then None else Some(Err(TokenNotConsumed))
              else if m.EventSeen? && (m.event.Stopping? || m.event.Stopped?) then Some(Err(StoppedBeforeReadiness))
              else Some(Err(Complaint(m)))
  {
  }

  /** What follows the listening event: the token must be gone, the runtime
      captured, nothing heard meanwhile but harmless messages, and the listener
      ready. */
  lemma SettlingIsExact(o: Owner, t: StartTurn)
    ensures var heard := DrainMonitor(o.(runtime := true), true, t.settling.received, t.settling.disconnected).1;
            ErrorOf(Settle(o, t).1)
            == if t.tokenGone != Some(true) then Some(TokenNotConsumed)
               else if !t.captured then Some(NativeFailure)
               else if heard.Some? then heard
               else if !t.listenerReady then Some(ReadinessTimeout)
               else None
  {
    hide Drain;
  }

  /** An abandoned start reports its cause, and with it the first failure of
      termination, waiting, joining the threads there are, and removal. */
  lemma AbandonFailuresAreExact(o: Owner, primary: Failure, n: Outcomes)
    requires o.process
    ensures var (o', error) := AbandonSpawned(o, primary, n);
            var cleanup := if !n.terminated || n.emptyAfterTerminate == None then Some(NativeFailure)
                           else if n.emptyAfterTerminate == Some(false) then Some(JobDidNotBecomeEmpty)
                           else if APanic(o, n) then Some(ThreadPanicked)
                           else if RemovalFails(o, n) then Some(NativeFailure)
                           else None;
            && error == (if cleanup.Some? then CleanupAfter(primary, cleanup.value) else primary)
            && (n.emptyAfterTerminate == Some(true) ==> !o'.stdoutThread && !o'.stderrThread)
  {
    hide RemoveSession, Terminate;
    TerminationFailuresAreExact(o, n);
    var closed := Terminate(o, n).0.(process := false);
    RemovalFailuresAreExact(closed.(stdoutThread := false, stderrThread := false), n);
    if n.emptyAfterTerminate.Some? {
      assert n.emptyAfterTerminate == if n.emptyAfterTerminate.value then Some(true) else Some(false);
    }
  }

  lemma TerminationFailuresAreExact(o: Owner, n: Outcomes)
    requires o.process
    ensures Terminate(o, n).1
         == if !n.terminated || n.emptyAfterTerminate == None then Some(NativeFailure)
            else if n.emptyAfterTerminate == Some(false) then Some(JobDidNotBecomeEmpty)
            else None
    ensures Terminate(o, n).0.session == o.session
  {
  }

  lemma RemovalFailuresAreExact(o: Owner, n: Outcomes)
    ensures RemoveSession(o, n).1 == if RemovalFails(o, n) then Some(NativeFailure) else None
    ensures RemoveSession(o, n).0.stdoutThread == o.stdoutThread && RemoveSession(o, n).0.stderrThread == o.stderrThread
  {
  }
}
