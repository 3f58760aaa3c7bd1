/** The runtime owner as the object it is: each method takes the native
    outcomes it meets and updates the fields in the original's order. */
module OwnedRuntime {
  import opened Common
  import opened StdoutMonitor
  import opened RuntimeOwner
  import Tracking = LifecycleTracker

  class RuntimeHandle {
    var session: bool
    var process: bool
    var runtime: bool
    var secret: bool
    var stdoutThread: bool
    var stderrThread: bool
    var state: OwnerState
    var inbox: Inbox
    ghost var jobSeenEmpty: bool
    ghost var filesRemoved: bool
    ghost var unsafeRemoval: bool
    /** Everything the monitor threads ever send. */
    ghost const all: seq<Message>

    ghost function Value(): Owner
      reads this
    {
      Owner(session, process, runtime, secret, stdoutThread, stderrThread, state, inbox,
            jobSeenEmpty, filesRemoved, unsafeRemoval)
    }

    ghost predicate Valid()
      reads this
    {
      Inv(Value(), all)
    }

    constructor (all: seq<Message>)
      ensures Valid() && Value() == Created(all) && this.all == all
    {
      this.all := all;
      session, process, runtime, secret := true, true, false, true;
      stdoutThread, stderrThread, state := true, true, Starting;
      inbox := Inbox(Tracking.AwaitingStart, false, 0, [], all);
      jobSeenEmpty, filesRemoved, unsafeRemoval := false, false, false;
      new;
      CreatedIsInv(all);
    }

    method ReceiveMessages(strict: bool, count: nat, disconnected: bool) returns (failure: Option<Failure>)
      modifies this`inbox
      ensures (Value(), failure) == DrainMonitor(old(Value()), strict, count, disconnected)
    {
      var left := count;
      while left > 0 && |inbox.channel| > 0
        invariant left >= 0
        invariant Drain(inbox, strict, state == Stopping, left, disconnected)
               == Drain(old(inbox), strict, state == Stopping, count, disconnected)
        decreases |inbox.channel|
      {
        ReceiveShortens(inbox, strict, state == Stopping);
        var (b, refused) := ReceiveOne(inbox, strict, state == Stopping);
        inbox := b;
        if refused.Some? { return refused; }
        left := left - 1;
      }
      if disconnected && strict && state != Stopping { return Some(MonitorDisconnected); }
      return None;
    }

    method JoinThreads(strict: bool, n: Outcomes) returns (failure: Option<Failure>)
      modifies this
      ensures (Value(), failure) == JoinMonitors(old(Value()), strict, n)
    {
      hide Drain;
      failure := None;
      if stdoutThread {
        stdoutThread := false;
        if n.stdoutPanics { failure := First(failure, Some(ThreadPanicked)); }
      }
      if stderrThread {
        stderrThread := false;
        if n.stderrPanics { failure := First(failure, Some(ThreadPanicked)); }
      }
      var drained := ReceiveMessages(strict, |inbox.channel|, true);
      failure := First(failure, drained);
    }

    method DeleteSession(n: Outcomes) returns (failure: Option<Failure>)
      modifies this
      ensures (Value(), failure) == RemoveSession(old(Value()), n)
    {
      failure := None;
      if session {
        if !n.securityVerified { failure := Some(NativeFailure); }
        if n.filesDeleted {
          session := false;
          unsafeRemoval := unsafeRemoval || process || !jobSeenEmpty;
          filesRemoved := true;
        } else {
          failure := First(failure, Some(NativeFailure));
        }
      }
    }

    method CloseJob()
      modifies this`process
      ensures Value() == old(Value()).(process := false)
    {
      process := false;
    }

    method Forget()
      modifies this`runtime, this`secret, this`state
      ensures Value() == Forgotten(old(Value()))
    {
      runtime, secret := false, false;
      if !session { state := Cleaned; }
    }

    method ReleaseEverything(strict: bool, n: Outcomes) returns (failure: Option<Failure>)
      modifies this
      ensures (Value(), failure) == Release(old(Value()), strict, n)
    {
      hide JoinMonitors, RemoveSession, Forgotten, Value;
      CloseJob();
      var joining := JoinThreads(strict, n);
      var removal := DeleteSession(n);
      Forget();
      failure := First(joining, removal);
    }

    method WaitForExits(n: Outcomes) returns (w: Exits)
      modifies this`jobSeenEmpty
      ensures w == Waited(Value().process, Value().runtime, n)
      ensures Value() == old(Value()).(jobSeenEmpty := old(Value()).jobSeenEmpty || w.jobEmpty)
    {
      var error: Option<Failure> := None;
      var wrapperExit: Option<nat> := None;
      var runtimeExit: Option<nat> := None;
      var jobEmpty := false;
      if process {
        match n.emptyAtFinish {
          case Some(empty) =>
            jobEmpty := empty;
            if !empty { error := First(error, Some(JobDidNotBecomeEmpty)); }
          case None => error := First(error, Some(NativeFailure));
        }
        match n.wrapperExit {
          case Some(code) => wrapperExit := code;
          case None => error := First(error, Some(NativeFailure));
        }
      } else {
        error := First(error, Some(OwnerNotRunning));
      }
      if runtime {
        match n.runtimeExit {
          case Some(code) => runtimeExit := code;
          case None => error := First(error, Some(NativeFailure));
        }
      } else {
        error := First(error, Some(RuntimeIdentityUnavailable));
      }
      if wrapperExit.None? || runtimeExit.None? {
        error := First(error, Some(ProcessDidNotExit));
      }
      jobSeenEmpty := jobSeenEmpty || jobEmpty;
      return Exits(error, jobEmpty, wrapperExit, runtimeExit);
    }

    method Finish(kind: Kind, strict: bool, n: Outcomes) returns (r: Result<ShutdownReport, Failure>)
      modifies this
      ensures (Value(), r) == FinishCleanup(old(Value()), kind, strict, n)
    {
      hide Release, Waited, Inv, Value;
      var w := WaitForExits(n);
      if !w.jobEmpty || w.wrapper.None? || w.runtime.None? {
        return Err(if w.error.Some? then w.error.value else ProcessDidNotExit);
      }
      var released := ReleaseEverything(strict, n);
      var error := First(w.error, released);
      if error.Some? { return Err(error.value); }
      var report := Report(kind, w);
      return Ok(report);
    }

    method Report(kind: Kind, w: Exits) returns (report: ShutdownReport)
      ensures report
           == ShutdownReport(kind, w.wrapper, w.runtime, Value().inbox.ignoredLines, w.jobEmpty, !Value().session)
    {
      return ShutdownReport(kind, w.wrapper, w.runtime, inbox.ignoredLines, w.jobEmpty, !session);
    }

    method TerminateJob(n: Outcomes) returns (failure: Option<Failure>, empty: bool)
      requires process
      modifies this`jobSeenEmpty
      ensures (Value(), failure) == Terminate(old(Value()), n)
      ensures empty <==> n.emptyAfterTerminate == Some(true)
    {
      failure, empty := None, false;
      if !n.terminated { failure := Some(NativeFailure); }
      match n.emptyAfterTerminate {
        case Some(e) =>
          empty := e;
          if !e { failure := First(failure, Some(JobDidNotBecomeEmpty)); }
        case None => failure := First(failure, Some(NativeFailure));
      }
      jobSeenEmpty := jobSeenEmpty || empty;
    }

    method ForceDown(n: Outcomes) returns (r: Result<ShutdownReport, Failure>)
      modifies this
      ensures (Value(), r) == ForceAndCleanup(old(Value()), n)
    {
      hide FinishCleanup;
      var primary: Option<Failure> := Some(OwnerNotRunning);
      if process {
        var terminated, _ := TerminateJob(n);
        primary := terminated;
      }
      r := Finish(Forced, false, n);
      if primary.Some? { r := Err(Combined(primary.value, ErrorOf(r))); }
    }

    method Abort(n: Outcomes) returns (r: Result<(), Failure>)
      modifies this
      ensures (Value(), r) == AbortAndCleanup(old(Value()), n)
    {
      hide Release;
      state := Stopping;
      var firstError: Option<Failure> := None;
      var jobEmpty := !process;
      if process { firstError, jobEmpty := TerminateJob(n); }
      if !jobEmpty { return Err(if firstError.Some? then firstError.value else JobDidNotBecomeEmpty); }
      var released := ReleaseEverything(false, n);
      firstError := First(firstError, released);
      return if firstError.Some? then Err(firstError.value) else Ok(());
    }

    method WaitForGraceful(n: Outcomes) returns (r: Result<ShutdownReport, Failure>)
      modifies this
      ensures (Value(), r) == AwaitGraceful(old(Value()), n, n.turns)
    {
      hide DrainMonitor, ForceAndCleanup, FinishCleanup, GracefulObserved;
      var i := 0;
      while i < |n.turns|
        invariant 0 <= i <= |n.turns|
        invariant AwaitGraceful(Value(), n, n.turns[i..]) == AwaitGraceful(old(Value()), n, n.turns)
      {
        var t := n.turns[i];
        assert n.turns[i..][1..] == n.turns[i + 1..] && n.turns[i..][0] == t;
        var drained := ReceiveMessages(true, t.received, t.disconnected);
        if drained.Some? {
          var cleanup := ForceDown(n);
          return Err(Combined(drained.value, ErrorOf(cleanup)));
        }
        var observed := Observe(t);
        if observed.Err? { return Err(observed.error); }
        if observed.value {
          r := Finish(Graceful, true, n);
          return;
        }
        if t.deadlinePassed {
          r := ForceDown(n);
          return;
        }
        i := i + 1;
      }
      r := ForceDown(n);
    }

    method Observe(t: Turn) returns (r: Result<bool, Failure>)
      ensures r == GracefulObserved(Value(), t)
    {
      if inbox.monitorState != Tracking.Halted { return Ok(false); }
      if !process { return Err(OwnerNotRunning); }
      if t.wrapperStopped.None? { return Err(NativeFailure); }
      if !runtime { return Err(RuntimeIdentityUnavailable); }
      if t.runtimeStopped.None? { return Err(NativeFailure); }
      if !t.wrapperStopped.value || !t.runtimeStopped.value { return Ok(false); }
      if t.activeProcesses.None? { return Err(NativeFailure); }
      return Ok(t.activeProcesses.value == 0);
    }

    method StopGracefully(n: Outcomes) returns (r: Result<ShutdownReport, Failure>)
      requires Valid()
      modifies this
      ensures Valid() && Honest(r, Value())
      ensures (Value(), r) == Shutdown(old(Value()), n)
    {
      ShutdownKeeps(Value(), n, all);
      hide AwaitGraceful, ForceAndCleanup, Honest, Inv, Vouches;
      if state == Cleaned { return Err(OwnerAlreadyCleaned); }
      if state != Stopping {
        state := Stopping;
        if !session { return Err(SessionUnavailable); }
        if !n.controlFile {
          var cleanup := ForceDown(n);
          return Err(Combined(NativeFailure, ErrorOf(cleanup)));
        }
      }
      r := WaitForGraceful(n);
    }

    method StopByForce(n: Outcomes) returns (r: Result<ShutdownReport, Failure>)
      requires Valid()
      modifies this
      ensures Valid() && Honest(r, Value())
      ensures (Value(), r) == ForceShutdown(old(Value()), n)
    {
      PerformKeepsInv(Value(), Force(n), all);
      hide ForceAndCleanup;
      if state == Cleaned { return Err(OwnerAlreadyCleaned); }
      state := Stopping;
      r := ForceDown(n);
    }

    method RetryCleanup(n: Outcomes) returns (r: Result<(), Failure>)
      requires Valid()
      modifies this
      ensures Valid() && (r.Ok? ==> state == Cleaned)
      ensures (Value(), r) == RetryPrivateCleanup(old(Value()), n)
    {
      PerformKeepsInv(Value(), Retry(n), all);
      hide RemoveSession, Inv;
      if state == Cleaned { return Err(OwnerAlreadyCleaned); }
      if process || stdoutThread || stderrThread { return Err(OwnerStillHasLiveResources); }
      var failure := DeleteSession(n);
      if !session {
        runtime, secret, state := false, false, Cleaned;
      }
      return if failure.Some? then Err(failure.value) else Ok(());
    }

    /** One turn of the readiness wait; None is to go on waiting. */
    method TakeTurn(t: StartTurn) returns (r: Readiness)
      modifies this
      ensures (Value(), r) == ReadyTurn(old(Value()), t)
    {
      hide Settle;
      if t.wrapperStopped.None? { return Some(Err(NativeFailure)); }
      if t.wrapperStopped.value { return Some(Err(WrapperExited)); }
      if !t.arrived || |inbox.channel| == 0 {
        return if t.disconnected then Some(Err(MonitorDisconnected)) else None;
      }
      var m := inbox.channel[0];
      var (b, failure) := ApplyMonitor(Received(inbox), m, !m.StdoutEnded?, false);
      inbox := b;
      if m.StdoutEnded? { return Some(Err(ProtocolStreamEnded)); }
      if failure.Some? { return Some(Err(failure.value)); }
      if !m.EventSeen? { return None; }
      match m.event {
        case Starting(_, _, _, _) => return if t.tokenGone != Some(true) then Some(Err(TokenNotConsumed)) else None;
        case Listening(_, _, _) =>
          var settled := SettleDown(t);
          return Some(settled);
        case Error(_, _, _, _) => return Some(Err(LauncherReportedFailure));
        case _ => return Some(Err(StoppedBeforeReadiness));
      }
    }

    method SettleDown(t: StartTurn) returns (r: Result<(), Failure>)
      modifies this
      ensures (Value(), r) == Settle(old(Value()), t)
    {
      hide Drain;
      if t.tokenGone != Some(true) { return Err(TokenNotConsumed); }
      if !t.captured { return Err(NativeFailure); }
      runtime := true;
      var late := ReceiveMessages(true, t.settling.received, t.settling.disconnected);
      if late.Some? { return Err(late.value); }
      if !t.listenerReady { return Err(ReadinessTimeout); }
      state := Ready;
      return Ok(());
    }

    method WaitUntilReady(turns: seq<StartTurn>) returns (r: Result<(), Failure>)
      modifies this
      ensures (Value(), r) == AwaitReady(old(Value()), turns)
    {
      hide ReadyTurn;
      for i := 0 to |turns|
        invariant AwaitReady(Value(), turns[i..]) == AwaitReady(old(Value()), turns)
      {
        assert turns[i..][1..] == turns[i + 1..] && turns[i..][0] == turns[i];
        var verdict := TakeTurn(turns[i]);
        if verdict.Some? { return verdict.value; }
      }
      return Err(ReadinessTimeout);
    }

    /** A start that fails cleans up before it reports. */
    method Begin(turns: seq<StartTurn>, n: Outcomes) returns (r: Result<(), Failure>)
      requires Valid() && state == Starting && process
      modifies this
      ensures Valid() && (r.Ok? ==> state == Ready)
      ensures (Value(), r) == Launch(old(Value()), turns, n)
    {
      PerformKeepsInv(Value(), Start(turns, n), all);
      ReadyOnSuccess(Value(), turns);
      hide AwaitReady, AbortAndCleanup, Inv;
      r := WaitUntilReady(turns);
      if r.Err? {
        var cleanup := Abort(n);
        r := Err(Combined(r.error, ErrorOf(cleanup)));
      }
    }

    method CheckHealth(t: Turn) returns (r: Result<(), Failure>)
      requires Valid()
      modifies this
      ensures Valid() && (r.Ok? ==> state == Ready && process && runtime && inbox.monitorState == Tracking.Bound)
      ensures (Value(), r) == PollHealth(old(Value()), t)
    {
      PerformKeepsInv(Value(), Health(t), all);
      hide DrainMonitor, Inv;
      if state != Ready { return Err(OwnerNotRunning); }
      var drained := ReceiveMessages(true, t.received, t.disconnected);
      if drained.Some? { return Err(drained.value); }
      if inbox.stdoutEnded { return Err(ProtocolStreamEnded); }
      if !process { return Err(OwnerNotRunning); }
      if t.wrapperStopped.None? { return Err(NativeFailure); }
      if t.wrapperStopped.value { return Err(WrapperExited); }
      if !runtime { return Err(RuntimeIdentityUnavailable); }
      if t.runtimeStopped.None? { return Err(NativeFailure); }
      if t.runtimeStopped.value { return Err(RuntimeExited); }
      if inbox.monitorState != Tracking.Bound { return Err(UnexpectedLifecycleState); }
      return Ok(());
    }

    method GoOutOfScope(n: Outcomes)
      requires Valid()
      modifies this
      ensures Valid() && Value() == DropOwner(old(Value()), n)
    {
      PerformKeepsInv(Value(), Drop(n), all);
      hide AbortAndCleanup, Inv;
      if state != Cleaned { var _ := Abort(n); }
    }

    method Serve(call: Call) returns (report: Option<ShutdownReport>)
      requires Valid()
      modifies this
      ensures Valid() && (report.Some? ==> Honest(Ok(report.value), Value()))
      ensures (Value(), report) == Perform(old(Value()), call)
    {
      hide Inv, Shutdown, ForceShutdown, Launch, PollHealth, RetryPrivateCleanup, DropOwner, Honest;
      report := None;
      match call {
        case Start(turns, n) =>
          if state == Starting && process { var _ := Begin(turns, n); }
        case Health(turn) => var _ := CheckHealth(turn);
        case Stop(n) =>
          var r := StopGracefully(n);
          report := ReportOf(r);
        case Force(n) =>
          var r := StopByForce(n);
          report := ReportOf(r);
        case Retry(n) => var _ := RetryCleanup(n);
        case Drop(n) => GoOutOfScope(n);
      }
    }

    /** Any sequence of calls on one object, whatever every native call answers:
        private files went only once the Job had been seen empty and closed, a
        cleaned object holds nothing, and at most one call ever reports, of an
        empty Job, both exit codes and a removed session. */
    method Replay(calls: seq<Call>) returns (reports: seq<ShutdownReport>)
      requires Valid()
      modifies this
      ensures Valid() && Value() == PerformAll(old(Value()), calls)
      ensures !unsafeRemoval && (filesRemoved ==> jobSeenEmpty && !process)
      ensures state == Cleaned ==>
                filesRemoved && !session && !process && !runtime && !secret && !stdoutThread && !stderrThread
      ensures |reports| <= 1
      ensures |reports| == 1 ==>
                && old(state) != Cleaned && state == Cleaned
                && reports[0].jobEmpty && reports[0].wrapperExit.Some? && reports[0].runtimeExit.Some?
                && reports[0].sessionRemoved
    {
      reports := [];
      hide Perform, StateAfter;
      for i := 0 to |calls|
        invariant Valid()
        invariant PerformAll(Value(), calls[i..]) == PerformAll(old(Value()), calls)
        invariant old(state) == Cleaned ==> state == Cleaned && reports == []
        invariant |reports| <= 1
        invariant |reports| == 1 ==>
                    && state == Cleaned
                    && reports[0].jobEmpty && reports[0].wrapperExit.Some? && reports[0].runtimeExit.Some?
                    && reports[0].sessionRemoved
      {
        assert calls[i..][1..] == calls[i + 1..] && calls[i..][0] == calls[i];
        if state == Cleaned { CleanedIsPermanent(Value(), calls[i]); }
        var report := Serve(calls[i]);
        if report.Some? { reports := reports + [report.value]; }
      }
    }
  }
}
