/** What a graceful shutdown report says about the launcher's whole session. */
module GracefulShutdown {
  import opened Common
  import ByteStream
  import opened LauncherEvents
  import opened StdoutMonitor
  import opened RuntimeOwner
  import Tracking = LifecycleTracker
  import Decoding = EventDecoder

  /** The messages of the stdout thread; the other thread sends only its own
      read failure. */
  function FromStdout(messages: seq<Message>): seq<Message>
  {
    if messages == [] then []
    else
      FromStdout(messages[..|messages| - 1]) +
      (if messages[|messages| - 1].StderrReadFailure? then [] else [messages[|messages| - 1]])
  }

  predicate IsStdoutFailure(m: Message) { m.ProtocolFailure? || m.StdoutReadFailure? }

  ghost predicate NoStdoutFailures(messages: seq<Message>)
  {
    forall i :: 0 <= i < |messages| ==> !IsStdoutFailure(messages[i])
  }

  lemma NoStdoutFailuresAppend(messages: seq<Message>, m: Message)
    ensures NoStdoutFailures(messages + [m]) <==> NoStdoutFailures(messages) && !IsStdoutFailure(m)
  {
    var more := messages + [m];
    assert forall i :: 0 <= i < |messages| ==> more[i] == messages[i];
    assert more[|messages|] == m;
  }

  lemma {:induction false} FromStdoutFacts(messages: seq<Message>)
    ensures StateAfter(FromStdout(messages)) == StateAfter(messages)
    ensures EventsIn(FromStdout(messages)) == EventsIn(messages)
    ensures NoStdoutFailures(messages) <==> NoStdoutFailures(FromStdout(messages))
    decreases |messages|
  {
    if messages != [] {
      var init, last := messages[..|messages| - 1], messages[|messages| - 1];
      FromStdoutFacts(init);
      assert messages == init + [last];
      StateAfterAppend(init, last);
      EventsInAppend(init, [last]);
      NoStdoutFailuresAppend(init, last);
      if last.StderrReadFailure? {
        assert FromStdout(init) + [] == FromStdout(init);
        assert EventsIn([last]) == [] && EventsIn(init) + [] == EventsIn(init);
      } else {
        StateAfterAppend(FromStdout(init), last);
        EventsInAppend(FromStdout(init), [last]);
        NoStdoutFailuresAppend(FromStdout(init), last);
      }
    }
  }

  lemma {:induction false} FromStdoutPrefix(messages: seq<Message>, k: nat)
    requires k <= |messages|
    ensures FromStdout(messages[..k]) <= FromStdout(messages)
    decreases |messages| - k
  {
    if k < |messages| {
      FromStdoutPrefix(messages, k + 1);
      assert messages[..k + 1][..k] == messages[..k];
    } else {
      assert messages[..k] == messages;
    }
  }

  /** A report prefix whose last stated state is Halted has seen a session. */
  lemma {:induction false} HaltedPrefixIsCompleted(
      c: Decoding.Config, p: Tracking.Policy, pipe: seq<PipeRead>, j: nat)
    requires j <= |Report(c, p, pipe)| && StateAfter(Report(c, p, pipe)[..j]) == Tracking.Halted
    ensures exists pid :: Tracking.Completed(p, EventsIn(Report(c, p, pipe)[..j]), pid)
    decreases j
  {
    hide Report, Tracking.Completed;
    var seen := Report(c, p, pipe)[..j];
    if j > 0 {
      var last := seen[j - 1];
      if last.EventSeen? || last.StdoutEnded? {
        ReportedStatesAreTrue(c, p, pipe, j);
      } else {
        assert seen[..j - 1] == Report(c, p, pipe)[..j - 1];
        HaltedPrefixIsCompleted(c, p, pipe, j - 1);
        assert seen == seen[..j - 1] + [last];
        EventsInAppend(seen[..j - 1], [last]);
        assert EventsIn([last]) == [] && EventsIn(seen[..j - 1]) + [] == EventsIn(seen[..j - 1]);
      }
    }
  }

  /** No accepted sequence properly extends a completed one. */
  lemma CompletedIsMaximal(p: Tracking.Policy, part: seq<Event>, whole: seq<Event>, pid: nat)
    requires Tracking.Completed(p, part, pid) && part <= whole && Tracking.Track(p, whole).Some?
    ensures part == whole
  {
    var other := Tracking.AcceptedIsExplained(p, whole);
    var last := |part| - 1;
    assert whole[last] == part[last] && whole[last].Stopped?;
  }

  lemma {:induction false} EventsInPrefix(messages: seq<Message>, k: nat)
    requires k <= |messages|
    ensures EventsIn(messages[..k]) <= EventsIn(messages)
  {
    assert messages == messages[..k] + messages[k..];
    EventsInAppend(messages[..k], messages[k..]);
  }

  lemma HaltedSomewhereIsCompleted(
      c: Decoding.Config, p: Tracking.Policy, pipe: seq<PipeRead>, all: seq<Message>, k: nat)
    requires FromStdout(all) == Report(c, p, pipe)
    requires k <= |all| && StateAfter(all[..k]) == Tracking.Halted
    ensures exists pid :: Tracking.Completed(p, EventsIn(all), pid)
  {
    hide Report, Tracking.Completed, StateAfter, Tracking.Track, EventsIn, FromStdout, NoStdoutFailures,
      Tracking.InLanguage;
    var report := Report(c, p, pipe);
    FromStdoutFacts(all[..k]);
    FromStdoutFacts(all);
    FromStdoutPrefix(all, k);
    var j := |FromStdout(all[..k])|;
    assert FromStdout(all[..k]) == report[..j];
    HaltedPrefixIsCompleted(c, p, pipe, j);
    var pid :| Tracking.Completed(p, EventsIn(report[..j]), pid);
    EventsInPrefix(report, j);
    ReportNonEmpty(c, p, pipe);
    ReportedStatesAreTrue(c, p, pipe, |report|);
    assert report[..|report|] == report;
    CompletedIsMaximal(p, EventsIn(report[..j]), EventsIn(report), pid);
  }

  lemma ReportNonEmpty(c: Decoding.Config, p: Tracking.Policy, pipe: seq<PipeRead>)
    ensures Report(c, p, pipe) != []
  {
    MonitorSays(c, p, Decoding.FRESH, Tracking.FRESH, pipe);
  }

  lemma {:induction false} RelayFailureIsLast(p: Tracking.Policy, t: Tracking.Tracker, events: seq<Event>)
    requires Relay(p, t, events).failed
    ensures var m := Relay(p, t, events).messages; m != [] && IsStdoutFailure(m[|m| - 1])
    decreases |events|
  {
    var (t', r) := Tracking.Observe(p, t, events[0]);
    if r.Ok? { RelayFailureIsLast(p, t', events[1..]); }
  }

  /** The stdout thread's last message is its verdict, not an event. */
  lemma {:induction false} LastIsVerdict(
      c: Decoding.Config, p: Tracking.Policy, d: Decoding.Decoder, t: Tracking.Tracker, pipe: seq<PipeRead>)
    ensures var m := Monitor(c, p, d, t, pipe);
            m != [] && (m[|m| - 1].StdoutEnded? || IsStdoutFailure(m[|m| - 1]))
    decreases |pipe|
  {
    hide Decoding.Push, Decoding.Finish, Relay;
    if pipe != [] && pipe[0].Chunk? {
      var (d', batch) := Decoding.Push(c, d, pipe[0].bytes);
      if batch.Ok? {
        var relayed := Relay(p, t, batch.value);
        if relayed.failed { RelayFailureIsLast(p, t, batch.value); }
        else { LastIsVerdict(c, p, d', relayed.tracker, pipe[1..]); }
      }
    }
  }

  lemma {:induction false} OnlyTheLastIsNoEvent(p: Tracking.Policy, t: Tracking.Tracker, messages: seq<Message>)
    requires Faithful(p, t, messages)
    ensures forall i :: 0 <= i < |messages| - 1 ==> messages[i].EventSeen?
    decreases |messages|
  {
    if messages != [] && messages[0].EventSeen? {
      OnlyTheLastIsNoEvent(p, Tracking.Observe(p, t, messages[0].event).0, messages[1..]);
      assert forall i :: 0 < i < |messages| ==> messages[i] == messages[1..][i - 1];
    }
  }

  /** The stdout thread sends no failure exactly when the pipe was clean. */
  lemma NoFailureIsCleanPipe(c: Decoding.Config, p: Tracking.Policy, pipe: seq<PipeRead>)
    ensures NoStdoutFailures(Report(c, p, pipe)) <==> CleanPipe(c, p, pipe)
  {
    hide Monitor, CleanPipe, Faithful;
    var m := Report(c, p, pipe);
    if p.port != 0 { LastIsVerdict(c, p, Decoding.FRESH, Tracking.FRESH, pipe); }
    ReportIsFaithful(c, p, pipe);
    OnlyTheLastIsNoEvent(p, Tracking.FRESH, m);
    CleanEndIsExact(c, p, pipe);
  }

  /** Main result. Take any run of calls against any native outcomes, with the
      stdout thread reading any pipe. If a call then returns a graceful report,
      the events reported over the whole pipe form one completed session, and
      everything the threads sent was received; moreover the pipe was clean
      exactly when no stdout failure had been received before that call. */
  lemma GracefulMeansCompletedSession(
      c: Decoding.Config, p: Tracking.Policy, pipe: seq<PipeRead>, all: seq<Message>, calls: seq<Call>, call: Call)
    requires FromStdout(all) == Report(c, p, pipe)
    ensures var o := PerformAll(Created(all), calls);
            var (o', report) := Perform(o, call);
            report.Some? && report.value.kind == Graceful ==>
              && (exists pid :: Tracking.Completed(p, EventsIn(all), pid))
              && o'.inbox.consumed == all
              && Unfailing(o.inbox.consumed, all)
              && (CleanPipe(c, p, pipe) <==> NoStdoutFailures(o.inbox.consumed))
  {
    hide Perform, PerformAll, Report, Tracking.Completed, StateAfter, NoStdoutFailures, EventsIn, Unfailing,
      CleanPipe, FromStdout;
    var o := PerformAll(Created(all), calls);
    var (o', report) := Perform(o, call);
    CreatedIsInv(all);
    RunKeepsInv(Created(all), calls, all);
    PerformKeepsInv(o, call, all);
    if report.Some? && report.value.kind == Graceful {
      assert o'.inbox.consumed == all by {
        assert o'.inbox.channel == [] && o'.inbox.consumed + [] == o'.inbox.consumed;
      }
      var k :| 0 <= k <= |o'.inbox.consumed| && StateAfter(o'.inbox.consumed[..k]) == Tracking.Halted;
      HaltedSomewhereIsCompleted(c, p, pipe, all, k);
      UnfailingAddsNoFailure(o.inbox.consumed, all);
      FromStdoutFacts(all);
      NoFailureIsCleanPipe(c, p, pipe);
    }
  }

  lemma UnfailingAddsNoFailure(before: seq<Message>, now: seq<Message>)
    requires Unfailing(before, now)
    ensures NoStdoutFailures(now) <==> NoStdoutFailures(before)
  {
    assert forall i :: 0 <= i < |before| ==> now[i] == before[i];
  }

  // ------------------------------------------------------ the lost failure

  const BEGUN: Event := Event.Starting("now", 7, 8080, true)
  const SERVING: Event := Listening("now", 7, 8080)
  const ENDED: Event := Stopped("now", 7)

  const POLICY: Tracking.Policy := Tracking.Policy(8080, true)

  /** A session whose launcher says `stopped` twice. */
  const TWICE: seq<Event> := [BEGUN, SERVING, ENDED, ENDED]

  /** Nothing arrives but one message, and both processes have ended. */
  const QUIET: Turn := Turn(1, false, Some(true), Some(true), Some(0), false)

  const IDLE: Turn := Turn(0, false, Some(false), Some(false), Some(2), false)

  const ARRIVES: StartTurn := StartTurn(Some(false), true, false, Some(true), true, IDLE, true)

  const WELL: Outcomes :=
    Outcomes([QUIET], true, true, Some(true), Some(true), Some(Some(0)), Some(Some(0)), false, false, true, true)

  /** What the stdout thread makes of that session. */
  const SENT: seq<Message> :=
    [EventSeen(Tracking.Started, BEGUN), EventSeen(Tracking.Bound, SERVING), EventSeen(Tracking.Halted, ENDED),
     ProtocolFailure(EventAfterTerminalState)]

  /** Start, and two health polls that each meet one of the last messages. */
  const CALLS: seq<Call> := [Start([ARRIVES, ARRIVES], WELL), Health(QUIET), Health(QUIET)]

  lemma TwiceIsExpressible()
    ensures forall i :: 0 <= i < |TWICE| ==> Decoding.Expressible(TWICE[i])
  {
    assert ValidTimestamp("now") by { assert ByteLength("now") == 3; }
  }

  lemma TwiceIsRelayed()
    ensures Relay(POLICY, Tracking.FRESH, TWICE).failed && Relay(POLICY, Tracking.FRESH, TWICE).messages == SENT
  {
    var t1 := Tracking.Tracker(Tracking.Started, Some(7));
    var t2 := Tracking.Tracker(Tracking.Bound, Some(7));
    var t3 := Tracking.Tracker(Tracking.Halted, Some(7));
    assert Relay(POLICY, t3, [ENDED]) == Relayed([SENT[3]], t3, true);
    assert TWICE[2..][1..] == [ENDED];
    assert Relay(POLICY, t2, TWICE[2..]) == Relayed([SENT[2]] + [SENT[3]], t3, true);
    assert TWICE[1..][1..] == TWICE[2..];
    assert Relay(POLICY, t1, TWICE[1..]) == Relayed([SENT[1]] + ([SENT[2]] + [SENT[3]]), t3, true);
  }

  lemma ThreadSendsFailure(
      maxLineBytes: nat, write: RawEvent -> ByteStream.Bytes, parse: ByteStream.Bytes -> Option<RawEvent>)
    requires Decoding.Prints(write, parse)
    requires forall i :: 0 <= i < |TWICE| ==> |Decoding.EmittedLine(write, TWICE[i], false)| <= maxLineBytes
    ensures Report(Decoding.Configured(maxLineBytes, parse), POLICY, [Chunk(Decoding.Emitted(write, TWICE, false))])
         == SENT
  {
    hide Decoding.Prints, Decoding.Emitted, Decoding.EmittedLine, Decoding.Push, Decoding.Expressible, Relay;
    TwiceIsExpressible();
    Decoding.EmittedEventsAreDecoded(maxLineBytes, write, parse, TWICE, false);
    TwiceIsRelayed();
  }

  /** The inbox after the first k messages. */
  function After(k: nat, state: Tracking.State): Inbox
    requires k <= |SENT|
  {
    Inbox(state, false, 0, SENT[..k], SENT[k..])
  }

  lemma NextMessage(k: nat, state: Tracking.State)
    requires k < |SENT|
    ensures var b := After(k, state);
            b.channel != [] && b.channel[0] == SENT[k] && Received(b) == After(k + 1, state)
  {
  }

  function Waiting(): Owner { Created(SENT) }

  function Serving(k: nat, state: Tracking.State): Owner
    requires k <= |SENT|
  {
    Waiting().(runtime := true, state := OwnerState.Ready, inbox := After(k, state))
  }

  lemma StartReceivesTwo()
    ensures Launch(Waiting(), [ARRIVES, ARRIVES], WELL) == (Serving(2, Tracking.Bound), Ok(()))
  {
    NextMessage(0, Tracking.AwaitingStart);
    NextMessage(1, Tracking.Started);
    assert Waiting().inbox == After(0, Tracking.AwaitingStart);
    var started := Waiting().(inbox := After(1, Tracking.Started));
    assert [ARRIVES, ARRIVES][1..] == [ARRIVES];
    var d := Waiting().(runtime := true, inbox := After(2, Tracking.Bound));
    assert DrainMonitor(d, true, 0, false) == (d, None);
    assert AwaitReady(started, [ARRIVES]) == (Serving(2, Tracking.Bound), Ok(()));
    assert AwaitReady(Waiting(), [ARRIVES, ARRIVES]) == AwaitReady(started, [ARRIVES]);
  }

  lemma HealthReceivesTwo()
    ensures PollHealth(Serving(2, Tracking.Bound), QUIET) == (Serving(3, Tracking.Halted), Err(StoppedUnexpectedly))
    ensures PollHealth(Serving(3, Tracking.Halted), QUIET)
         == (Serving(4, Tracking.Halted), Err(ProtocolRejected(EventAfterTerminalState)))
  {
    NextMessage(2, Tracking.Bound);
    NextMessage(3, Tracking.Halted);
    assert ReceiveOne(After(2, Tracking.Bound), true, false) == (After(3, Tracking.Halted), Some(StoppedUnexpectedly));
  }

  /** The calls before the last receive everything and report the failure. */
  lemma EverythingIsReceived()
    ensures PerformAll(Created(SENT), CALLS) == Serving(4, Tracking.Halted)
  {
    hide Launch, PollHealth;
    StartReceivesTwo();
    HealthReceivesTwo();
    assert CALLS[1..][0] == Health(QUIET) && CALLS[1..][1..][0] == Health(QUIET) && CALLS[1..][1..][1..] == [];
    var o := Serving(4, Tracking.Halted);
    assert PerformAll(o, []) == o;
    assert PerformAll(Serving(3, Tracking.Halted), CALLS[1..][1..]) == o;
    assert PerformAll(Serving(2, Tracking.Bound), CALLS[1..]) == o;
  }

  lemma StopIsGraceful()
    ensures var (o, r) := Shutdown(Serving(4, Tracking.Halted), WELL); r.Ok? && r.value.kind == Graceful
  {
    var s := Serving(4, Tracking.Halted).(state := OwnerState.Stopping);
    assert s.inbox.channel == [];
    assert DrainMonitor(s, true, 1, false) == (s, None);
    assert GracefulObserved(s, QUIET) == Ok(true);
    assert FinishCleanup(s, Graceful, true, WELL).1.Ok?;
  }

  /** The condition is needed. Take any JSON writer and parser, and a launcher
      that emits `stopped` twice: two health polls receive and report the
      protocol failure, the next shutdown reports itself graceful all the same,
      and the pipe was not clean. */
  lemma ReportedFailureIsForgotten(
      maxLineBytes: nat, write: RawEvent -> ByteStream.Bytes, parse: ByteStream.Bytes -> Option<RawEvent>)
    requires Decoding.Prints(write, parse)
    requires forall i :: 0 <= i < |TWICE| ==> |Decoding.EmittedLine(write, TWICE[i], false)| <= maxLineBytes
    ensures var c := Decoding.Configured(maxLineBytes, parse);
            var pipe := [Chunk(Decoding.Emitted(write, TWICE, false))];
            var report := Perform(PerformAll(Created(SENT), CALLS), Stop(WELL)).1;
            && FromStdout(SENT) == Report(c, POLICY, pipe)
            && report.Some? && report.value.kind == Graceful
            && !CleanPipe(c, POLICY, pipe)
  {
    hide Report, PerformAll, Shutdown, CleanPipe;
    var c := Decoding.Configured(maxLineBytes, parse);
    var pipe := [Chunk(Decoding.Emitted(write, TWICE, false))];
    ThreadSendsFailure(maxLineBytes, write, parse);
    SentIsFromStdout();
    EverythingIsReceived();
    StopIsGraceful();
    NoFailureIsCleanPipe(c, POLICY, pipe);
    assert IsStdoutFailure(SENT[3]);
  }

  lemma SentIsFromStdout()
    ensures FromStdout(SENT) == SENT
  {
    assert SENT[..3][..2][..1] == [SENT[0]] && SENT[..3][..2] == [SENT[0], SENT[1]];
    assert FromStdout([SENT[0]]) == [SENT[0]];
    assert FromStdout(SENT[..3][..2]) == [SENT[0], SENT[1]];
    assert FromStdout(SENT[..3]) == [SENT[0], SENT[1], SENT[2]];
  }
}
