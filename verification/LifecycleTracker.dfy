/** The sequence validator of launcher events. */
module LifecycleTracker {
  import opened Common
  import opened LauncherEvents

  datatype State = AwaitingStart | Started | Bound | Halting | Halted | Failed

  predicate IsTerminal(s: State) { s == Halted || s == Failed }

  datatype Policy = Policy(port: Port, gracefulStop: bool)

  datatype Tracker = Tracker(state: State, pid: Option<Pid>)

  const FRESH: Tracker := Tracker(AwaitingStart, None)

  type Reply = Result<State, ProtocolError>

  function ObserveActive(p: Policy, t: Tracker, e: Event): (Tracker, Reply)
  {
    match (t.state, e)
    case (_, Error(_, _, _, reported)) =>
      if t.pid.Some? && reported.Some? && t.pid != reported then (t, Err(RuntimePidChanged))
      else (t.(state := Failed), Ok(Failed))
    case (AwaitingStart, Starting(_, pid, port, graceful)) =>
      if port != p.port then (t, Err(UnexpectedPort))
      else if graceful != p.gracefulStop then (t, Err(GracefulStopMismatch))
      else (Tracker(Started, Some(pid)), Ok(Started))
    case (Started, Listening(_, pid, port)) =>
      if port != p.port then (t, Err(UnexpectedPort))
      else if t.pid != Some(pid) then (t, Err(RuntimePidChanged))
      else (t.(state := Bound), Ok(Bound))
    case (Bound, Stopping(_)) =>
      if !p.gracefulStop then (t, Err(GracefulStopMismatch)) else (t.(state := Halting), Ok(Halting))
    case (Bound, Stopped(_, pid)) =>
      if t.pid != Some(pid) then (t, Err(RuntimePidChanged)) else (t.(state := Halted), Ok(Halted))
    case (Halting, Stopped(_, pid)) =>
      if t.pid != Some(pid) then (t, Err(RuntimePidChanged)) else (t.(state := Halted), Ok(Halted))
    case _ => (t, Err(UnexpectedEventSequence))
  }

  function Observe(p: Policy, t: Tracker, e: Event): (Tracker, Reply)
  {
    if IsTerminal(t.state) then (t, Err(EventAfterTerminalState))
    else
      var (t', r) := ObserveActive(p, t, e);
      (if r.Err? then t'.(state := Failed) else t', r)
  }

  class LifecycleTracker {
    const policy: Policy
    var state: State
    var runtimePid: Option<Pid>

    ghost function Value(): Tracker
      reads this
    {
      Tracker(state, runtimePid)
    }

    static method TryNew(policy: Policy) returns (r: Result<LifecycleTracker, ProtocolError>)
      ensures policy.port == 0 ==> r == Err(InvalidExpectedPort)
      ensures policy.port != 0 ==> r.Ok? && fresh(r.value) && r.value.Value() == FRESH && r.value.policy == policy
    {
      if policy.port == 0 { return Err(InvalidExpectedPort); }
      var tracker := new LifecycleTracker(policy);
      return Ok(tracker);
    }

    constructor (policy: Policy)
      ensures Value() == FRESH && this.policy == policy
    {
      this.policy := policy;
      state, runtimePid := AwaitingStart, None;
    }

    method ObserveEvent(e: Event) returns (r: Reply)
      modifies this
      ensures (Value(), r) == Observe(policy, old(Value()), e)
    {
      if IsTerminal(state) { return Err(EventAfterTerminalState); }
      r := ObserveActiveEvent(e);
      if r.Err? { state := Failed; }
    }

    method ObserveActiveEvent(e: Event) returns (r: Reply)
      modifies this
      ensures (Value(), r) == ObserveActive(policy, old(Value()), e)
    {
      if e.Error? {
        if runtimePid.Some? && e.reportedPid.Some? && runtimePid.value != e.reportedPid.value {
          return Err(RuntimePidChanged);
        }
        state := Failed;
        return Ok(state);
      }
      match (state, e) {
        case (AwaitingStart, Starting(_, pid, port, graceful)) =>
          if port != policy.port { return Err(UnexpectedPort); }
          if graceful != policy.gracefulStop { return Err(GracefulStopMismatch); }
          runtimePid, state := Some(pid), Started;
        case (Started, Listening(_, pid, port)) =>
          if port != policy.port { return Err(UnexpectedPort); }
          if runtimePid != Some(pid) { return Err(RuntimePidChanged); }
          state := Bound;
        case (Bound, Stopping(_)) =>
          if !policy.gracefulStop { return Err(GracefulStopMismatch); }
          state := Halting;
        case (Bound, Stopped(_, pid)) =>
          if runtimePid != Some(pid) { return Err(RuntimePidChanged); }
          state := Halted;
        case (Halting, Stopped(_, pid)) =>
          if runtimePid != Some(pid) { return Err(RuntimePidChanged); }
          state := Halted;
        case _ => return Err(UnexpectedEventSequence);
      }
      return Ok(state);
    }
  }

  // ----------------------------------------------------- accepted languages

  /** The tracker after a sequence of events, all of which it accepted. */
  function Track(p: Policy, events: seq<Event>): Option<Tracker>
    decreases |events|
  {
    if events == [] then Some(FRESH)
    else match Track(p, events[..|events| - 1])
      case None => None
      case Some(t) =>
        var (t', r) := Observe(p, t, events[|events| - 1]);
        if r.Ok? then Some(t') else None
  }

  ghost predicate Begins(p: Policy, e: Event, pid: nat)
  {
    e.Starting? && e.pid == pid && e.port == p.port && e.gracefulStop == p.gracefulStop
  }

  ghost predicate Binds(p: Policy, e: Event, pid: nat) { e.Listening? && e.pid == pid && e.port == p.port }

  ghost predicate Ends(e: Event, pid: nat) { e.Stopped? && e.pid == pid }

  /** starting(p), listening(p), optional stopping when enabled, not ended. */
  ghost predicate Underway(p: Policy, events: seq<Event>, pid: nat)
  {
    && |events| <= 3
    && (|events| > 0 ==> Begins(p, events[0], pid))
    && (|events| > 1 ==> Binds(p, events[1], pid))
    && (|events| > 2 ==> events[2].Stopping? && p.gracefulStop)
  }

  ghost predicate Completed(p: Policy, events: seq<Event>, pid: nat)
  {
    && 3 <= |events| <= 4
    && Underway(p, events[..|events| - 1], pid)
    && Ends(events[|events| - 1], pid)
  }

  ghost predicate Aborted(p: Policy, events: seq<Event>, pid: nat)
  {
    && events != [] && events[|events| - 1].Error?
    && Underway(p, events[..|events| - 1], pid)
    && (|events| > 1 && events[|events| - 1].reportedPid.Some? ==>
          events[|events| - 1].reportedPid == Some(pid))
  }

  ghost predicate InLanguage(p: Policy, events: seq<Event>)
  {
    exists pid :: Underway(p, events, pid) || Completed(p, events, pid) || Aborted(p, events, pid)
  }

  ghost predicate Explains(p: Policy, events: seq<Event>, t: Tracker, pid: nat)
  {
    && t.pid == (if events == [] || (|events| == 1 && events[0].Error?) then None else Some(pid))
    && match t.state
       case AwaitingStart => |events| == 0
       case Started => |events| == 1 && Underway(p, events, pid)
       case Bound => |events| == 2 && Underway(p, events, pid)
       case Halting => |events| == 3 && Underway(p, events, pid)
       case Halted => Completed(p, events, pid)
       case Failed => Aborted(p, events, pid)
  }

  lemma {:induction false} AcceptedIsExplained(p: Policy, events: seq<Event>) returns (pid: nat)
    requires Track(p, events).Some?
    ensures Explains(p, events, Track(p, events).value, pid)
    decreases |events|
  {
    if events == [] {
      pid := 0;
    } else {
      var before, e := events[..|events| - 1], events[|events| - 1];
      pid := AcceptedIsExplained(p, before);
      if before == [] && e.Starting? { pid := e.pid; }
      assert |before| > 0 ==> before[0] == events[0];
      assert |before| > 1 ==> before[1] == events[1];
      assert |before| > 2 ==> before[2] == events[2];
    }
  }

  lemma {:induction false} UnderwayIsAccepted(p: Policy, events: seq<Event>, pid: nat)
    requires Underway(p, events, pid)
    ensures Track(p, events) == Some(Tracker(
              if |events| == 0 then AwaitingStart else if |events| == 1 then Started
              else if |events| == 2 then Bound else Halting,
              if |events| == 0 then None else Some(pid)))
    decreases |events|
  {
    if events != [] { UnderwayIsAccepted(p, events[..|events| - 1], pid); }
  }

  /** Main result: the accepted event sequences are exactly the language. */
  lemma TrackerLanguage(p: Policy, events: seq<Event>)
    ensures Track(p, events).Some? <==> InLanguage(p, events)
  {
    if Track(p, events).Some? {
      var pid := AcceptedIsExplained(p, events);
      assert Underway(p, events, pid) || Completed(p, events, pid) || Aborted(p, events, pid);
    }
    if InLanguage(p, events) {
      var pid :| Underway(p, events, pid) || Completed(p, events, pid) || Aborted(p, events, pid);
      if Underway(p, events, pid) {
        UnderwayIsAccepted(p, events, pid);
      } else {
        UnderwayIsAccepted(p, events[..|events| - 1], pid);
      }
    }
  }

  /** Reaching Halted is the same as having seen a whole session. */
  lemma HaltedMeansCompleted(p: Policy, events: seq<Event>)
    ensures (Track(p, events).Some? && Track(p, events).value.state == Halted) <==>
              exists pid :: Completed(p, events, pid)
  {
    if Track(p, events).Some? { var pid := AcceptedIsExplained(p, events); }
    if exists pid :: Completed(p, events, pid) {
      var pid :| Completed(p, events, pid);
      UnderwayIsAccepted(p, events[..|events| - 1], pid);
    }
  }

  /** A rejection ends the session: nothing is accepted after it. */
  lemma RejectionIsFinal(p: Policy, t: Tracker, e: Event, later: Event)
    requires Observe(p, t, e).1.Err?
    ensures Observe(p, Observe(p, t, e).0, later) == (Observe(p, t, e).0, Err(EventAfterTerminalState))
  {
  }

  /** Why an event is refused, where it is. */
  lemma RefusalsAreExact(p: Policy, t: Tracker, e: Event)
    requires Observe(p, t, e).1.Err?
    ensures Observe(p, t, e).1.error
         == if t.state == Halted || t.state == Failed then EventAfterTerminalState
            else if e.Error? then RuntimePidChanged
            else if t.state == AwaitingStart && e.Starting? then
              if e.port == p.port then GracefulStopMismatch else UnexpectedPort
            else if t.state == Started && e.Listening? then
              if e.port == p.port then RuntimePidChanged else UnexpectedPort
            else if t.state == Bound && e.Stopping? then GracefulStopMismatch
            else if (t.state == Bound || t.state == Halting) && e.Stopped? then RuntimePidChanged
            else UnexpectedEventSequence
  {
  }
}
