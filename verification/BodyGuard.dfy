/** The streaming guard around a message body. Uploads, upstream responses,
    bodyless responses and decoded responses differ only in their policy. */
module BodyGuard {
  import opened Common
  import opened ByteStream
  import RateFloor

  /** What the inner body yields at its next poll; any frame that is not data
      counts as trailers. */
  datatype Inner = Stalled | Data(bytes: Bytes) | Trailers | Broken | End

  datatype Reason =
    | TotalTimeout | IdleTimeout | BelowRate | Malformed | TooLong
    | PastDeclaredLength | TrailersRejected | EndedEarly

  datatype Outcome = Pending | Frame(bytes: Bytes) | Fault(reason: Reason) | Done

  datatype Policy = Policy(
    maxBytes: nat,
    declared: Option<nat>,
    idleTimeout: Option<nat>,
    totalTimeout: Option<nat>,
    window: nat,
    minimum: nat)

  function Upload(maxBytes: nat, idle: nat, total: nat, rate: nat, window: nat): Policy
  {
    Policy(maxBytes, None, Some(idle), Some(total), window, RateFloor.MinimumBytesForWindow(rate, window))
  }

  function Streaming(declared: Option<nat>, maxBytes: nat, idle: nat, rate: nat, window: nat): Policy
  {
    Policy(maxBytes, declared, Some(idle), None, window, RateFloor.MinimumBytesForWindow(rate, window))
  }

  function Forbidden(): Policy { Policy(0, None, None, None, 0, 0) }

  function Decoded(maxBytes: nat): Policy { Policy(maxBytes, None, None, None, 0, 0) }

  /** `closed` counts the rate windows that have ended without a failure. */
  datatype Body = Body(
    inner: seq<Inner>,
    forwarded: nat,
    windowBytes: nat,
    idleDeadline: Option<nat>,
    totalDeadline: Option<nat>,
    rateDeadline: Option<nat>,
    terminal: bool,
    closed: nat)

  function Fresh(inner: seq<Inner>): Body { Body(inner, 0, 0, None, None, None, false, 0) }

  function StartTimers(p: Policy, s: Body, now: nat): Body
  {
    if s.idleDeadline.None? && p.idleTimeout.Some? then
      s.(idleDeadline := Some(now + p.idleTimeout.value),
         totalDeadline := if p.totalTimeout.Some? then Some(now + p.totalTimeout.value) else None,
         rateDeadline := if p.minimum > 0 then Some(now + p.window) else None)
    else s
  }

  predicate Elapsed(deadline: Option<nat>, now: nat) { deadline.Some? && deadline.value <= now }

  function Reject(s: Body, reason: Reason): (Body, Outcome) { (s.(terminal := true), Fault(reason)) }

  /** Polling the inner body and admitting what it yields. */
  function Admit(p: Policy, s: Body, now: nat): (Body, Outcome)
  {
    var next := if s.inner == [] then Stalled else s.inner[0];
    var s' := if s.inner == [] then s else s.(inner := s.inner[1..]);
    match next
    case Stalled => (s', Pending)
    case Broken => Reject(s', Malformed)
    case Trailers => Reject(s', TrailersRejected)
    case Data(bytes) =>
      var total := s.forwarded + |bytes|;
      if total > U64_MAX || total > p.maxBytes then Reject(s', TooLong)
      else if p.declared.Some? && total > p.declared.value then Reject(s', PastDeclaredLength)
      else
        (s'.(forwarded := total,
             windowBytes := Min(s.windowBytes + |bytes|, U64_MAX),
             idleDeadline := if |bytes| > 0 && s.idleDeadline.Some? && p.idleTimeout.Some?
                             then Some(now + p.idleTimeout.value) else s.idleDeadline),
         Frame(bytes))
    case End =>
      (s'.(terminal := true),
       if p.declared.Some? && p.declared.value != s.forwarded then Fault(EndedEarly) else Done)
  }

  function Poll(p: Policy, s: Body, now: nat): (Body, Outcome)
  {
    if s.terminal then (s, Done)
    else
      var t := StartTimers(p, s, now);
      if Elapsed(t.totalDeadline, now) then Reject(t, TotalTimeout)
      else if Elapsed(t.idleDeadline, now) then Reject(t, IdleTimeout)
      else if Elapsed(t.rateDeadline, now) then
        if t.windowBytes < p.minimum then Reject(t, BelowRate)
        else Admit(p, t.(windowBytes := 0, rateDeadline := Some(now + p.window), closed := t.closed + 1), now)
      else Admit(p, t, now)
  }

  class Guard {
    const policy: Policy
    var inner: seq<Inner>
    var forwarded: nat
    var windowBytes: nat
    var idleTimer: Option<nat>
    var totalTimer: Option<nat>
    var rateTimer: Option<nat>
    var terminal: bool
    ghost var closed: nat

    ghost function State(): Body
      reads this
    {
      Body(inner, forwarded, windowBytes, idleTimer, totalTimer, rateTimer, terminal, closed)
    }

    constructor (policy: Policy, inner: seq<Inner>)
      ensures State() == Fresh(inner) && this.policy == policy
    {
      this.policy, this.inner := policy, inner;
      forwarded, windowBytes, terminal, closed := 0, 0, false, 0;
      idleTimer, totalTimer, rateTimer := None, None, None;
    }

    method PollFrame(now: nat) returns (o: Outcome)
      modifies this
      ensures (State(), o) == Poll(policy, old(State()), now)
    {
      if terminal { return Done; }
      if idleTimer.None? && policy.idleTimeout.Some? {
        idleTimer := Some(now + policy.idleTimeout.value);
        totalTimer := if policy.totalTimeout.Some? then Some(now + policy.totalTimeout.value) else None;
        rateTimer := if policy.minimum > 0 then Some(now + policy.window) else None;
      }
      if Elapsed(totalTimer, now) {
        terminal := true;
        return Fault(TotalTimeout);
      }
      if Elapsed(idleTimer, now) {
        terminal := true;
        return Fault(IdleTimeout);
      }
      if Elapsed(rateTimer, now) {
        if windowBytes < policy.minimum {
          terminal := true;
          return Fault(BelowRate);
        }
        windowBytes := 0;
        rateTimer := Some(now + policy.window);
        closed := closed + 1;
      }
      o := AdmitNext(now);
    }

    method AdmitNext(now: nat) returns (o: Outcome)
      modifies this
      ensures (State(), o) == Admit(policy, old(State()), now)
    {
      if |inner| == 0 { return Pending; }
      var next := inner[0];
      inner := inner[1..];
      match next {
        case Stalled => return Pending;
        case Broken =>
          terminal := true;
          return Fault(Malformed);
        case Trailers =>
          terminal := true;
          return Fault(TrailersRejected);
        case Data(bytes) =>
          var total := forwarded + |bytes|;
          if total > U64_MAX || total > policy.maxBytes {
            terminal := true;
            return Fault(TooLong);
          }
          if policy.declared.Some? && total > policy.declared.value {
            terminal := true;
            return Fault(PastDeclaredLength);
          }
          forwarded := total;
          windowBytes := Min(windowBytes + |bytes|, U64_MAX);
          if |bytes| > 0 && idleTimer.Some? && policy.idleTimeout.Some? {
            idleTimer := Some(now + policy.idleTimeout.value);
          }
          return Frame(bytes);
        case End =>
          terminal := true;
          if policy.declared.Some? && policy.declared.value != forwarded { return Fault(EndedEarly); }
          return Done;
      }
    }
  }

  // ------------------------------------------------------------------- runs

  function Run(p: Policy, s: Body, times: seq<nat>): (r: (Body, seq<Outcome>))
    ensures |r.1| == |times|
    decreases |times|
  {
    if times == [] then (s, [])
    else
      var (s', o) := Poll(p, s, times[0]);
      var (s'', os) := Run(p, s', times[1..]);
      (s'', [o] + os)
  }

  /** The data frames released, in order. */
  function Frames(os: seq<Outcome>): seq<Bytes>
  {
    if os == [] then [] else (if os[0].Frame? then [os[0].bytes] else []) + Frames(os[1..])
  }

  /** The data frames the inner body produces before anything ends it. */
  function Produced(inner: seq<Inner>): seq<Bytes>
  {
    if inner == [] then []
    else match inner[0]
      case Data(bytes) => [bytes] + Produced(inner[1..])
      case Stalled => Produced(inner[1..])
      case _ => []
  }

  /** Whether what ends the inner body is an orderly end. */
  predicate EndsWell(inner: seq<Inner>)
  {
    inner != [] && (inner[0].End? || ((inner[0].Data? || inner[0].Stalled?) && EndsWell(inner[1..])))
  }

  function Size(frames: seq<Bytes>): nat
  {
    if frames == [] then 0 else |frames[0]| + Size(frames[1..])
  }

  /** The body was reported complete, and no error was reported. */
  ghost predicate EndedCleanly(os: seq<Outcome>)
  {
    Done in os && forall i :: 0 <= i < |os| ==> !os[i].Fault?
  }

  lemma {:induction false} TerminalStaysDone(p: Policy, s: Body, times: seq<nat>)
    requires s.terminal
    ensures var (s', os) := Run(p, s, times);
            s' == s && Frames(os) == [] && forall i :: 0 <= i < |os| ==> os[i] == Done
    decreases |times|
  {
    if times != [] { TerminalStaysDone(p, s, times[1..]); }
  }

  /** One poll: what was released, and what the inner body has left. */
  ghost predicate Accounts(p: Policy, s: Body, s': Body, o: Outcome)
  {
    match o
    case Pending => !s'.terminal && s'.forwarded == s.forwarded && Produced(s'.inner) == Produced(s.inner)
                    && EndsWell(s'.inner) == EndsWell(s.inner)
    case Frame(bytes) =>
      && !s'.terminal && s'.forwarded == s.forwarded + |bytes|
      && s'.forwarded <= Min(p.maxBytes, U64_MAX) && (p.declared.Some? ==> s'.forwarded <= p.declared.value)
      && Produced(s.inner) == [bytes] + Produced(s'.inner)
      && EndsWell(s'.inner) == EndsWell(s.inner)
    case Fault(_) => s'.terminal && s'.forwarded == s.forwarded
    case Done =>
      && s'.terminal && s'.forwarded == s.forwarded
      && (!s.terminal ==>
            && Produced(s.inner) == [] && EndsWell(s.inner)
            && (p.declared.Some? ==> p.declared.value == s.forwarded))
  }

  lemma AdmitAccounts(p: Policy, s: Body, now: nat)
    requires !s.terminal
    ensures var (s', o) := Admit(p, s, now); Accounts(p, s, s', o)
  {
  }

  lemma PollAccounts(p: Policy, s: Body, now: nat)
    ensures var (s', o) := Poll(p, s, now); Accounts(p, s, s', o)
  {
    hide Admit, Produced, EndsWell;
    if !s.terminal {
      var t := StartTimers(p, s, now);
      assert t.inner == s.inner && t.forwarded == s.forwarded && !t.terminal;
      AdmitAccounts(p, t, now);
      AdmitAccounts(p, t.(windowBytes := 0, rateDeadline := Some(now + p.window), closed := t.closed + 1), now);
    }
  }

  lemma {:induction false} RunAccounts(p: Policy, s: Body, times: seq<nat>)
    requires !s.terminal
    ensures var (s', os) := Run(p, s, times);
            && Frames(os) <= Produced(s.inner)
            && s'.forwarded == s.forwarded + Size(Frames(os))
            && (Frames(os) != [] ==> s'.forwarded <= Min(p.maxBytes, U64_MAX))
            && (Frames(os) != [] && p.declared.Some? ==> s'.forwarded <= p.declared.value)
            && (EndedCleanly(os) ==>
                  && EndsWell(s.inner) && Frames(os) == Produced(s.inner)
                  && (p.declared.Some? ==> p.declared.value == s'.forwarded))
    decreases |times|
  {
    hide Poll, Produced, EndsWell;
    if times != [] {
      var (s1, o) := Poll(p, s, times[0]);
      var (s', later) := Run(p, s1, times[1..]);
      PollAccounts(p, s, times[0]);
      var os := [o] + later;
      assert os[1..] == later && os[0] == o;
      if s1.terminal {
        TerminalStaysDone(p, s1, times[1..]);
        assert Frames(os) == [];
      } else {
        RunAccounts(p, s1, times[1..]);
        if o.Frame? {
          assert ([o.bytes] + Frames(later))[1..] == Frames(later);
        } else {
          assert [] + Frames(later) == Frames(later);
        }
        if EndedCleanly(os) {
          forall i | 0 <= i < |later| ensures !later[i].Fault? { assert later[i] == os[i + 1]; }
        }
      }
    }
  }

  /** Main result. For every policy, inner body and polling times: the frames
      released are whole, unaltered and a prefix of what the inner body
      produced; their size stays within the cap and the declared length; an
      end without error means the inner body ended in order, everything it
      produced was released and the declared length was met exactly. */
  lemma ReleasedIsBoundedPrefix(p: Policy, inner: seq<Inner>, times: seq<nat>)
    ensures var os := Run(p, Fresh(inner), times).1;
            && Frames(os) <= Produced(inner)
            && Size(Frames(os)) <= p.maxBytes
            && (p.declared.Some? ==> Size(Frames(os)) <= p.declared.value)
            && (EndedCleanly(os) ==>
                  && EndsWell(inner) && Frames(os) == Produced(inner)
                  && (p.declared.Some? ==> Size(Frames(os)) == p.declared.value))
  {
    RunAccounts(p, Fresh(inner), times);
  }

  /** Nothing follows an error, nor an end. */
  lemma {:induction false} NothingFollowsAnError(p: Policy, s: Body, times: seq<nat>, i: nat, j: nat)
    requires i < j < |times|
    ensures var os := Run(p, s, times).1; os[i].Fault? || os[i].Done? ==> os[j] == Done
    decreases |times|
  {
    var (s1, o) := Poll(p, s, times[0]);
    var later := Run(p, s1, times[1..]).1;
    PollAccounts(p, s, times[0]);
    if i > 0 {
      NothingFollowsAnError(p, s1, times[1..], i - 1, j - 1);
      assert ([o] + later)[i] == later[i - 1] && ([o] + later)[j] == later[j - 1];
    } else if s1.terminal {
      TerminalStaysDone(p, s1, times[1..]);
      assert ([o] + later)[j] == later[j - 1];
    }
  }

  // ----------------------------------------------- rate floor and deadlines

  /** `start` is the first poll, `activity` the last arrival of data. */
  ghost predicate Timed(p: Policy, s: Body, start: nat, activity: nat)
  {
    && s.windowBytes <= s.forwarded <= U64_MAX
    && s.forwarded >= s.closed * p.minimum + s.windowBytes
    && (!s.terminal && p.idleTimeout.Some? ==>
          && s.idleDeadline == Some(activity + p.idleTimeout.value)
          && s.totalDeadline == (if p.totalTimeout.Some? then Some(start + p.totalTimeout.value) else None)
          && s.rateDeadline.Some? == (p.minimum > 0)
          && (s.rateDeadline.Some? ==> s.rateDeadline.value >= start + (s.closed + 1) * p.window))
    && (p.idleTimeout.None? ==> s.idleDeadline.None? && s.rateDeadline.None? && s.totalDeadline.None?)
    && (s.closed > 0 ==> p.idleTimeout.Some?)
  }

  lemma AdmitKeepsTimed(p: Policy, s: Body, now: nat, start: nat, activity: nat)
    requires Timed(p, s, start, activity) && !s.terminal
    ensures var (s', o) := Admit(p, s, now);
            Timed(p, s', start, if o.Frame? && o.bytes != [] then now else activity) && s'.closed == s.closed
  {
  }

  lemma WindowCloses(p: Policy, s: Body, now: nat, start: nat, activity: nat)
    requires Timed(p, s, start, activity) && !s.terminal
    requires Elapsed(s.rateDeadline, now) && s.windowBytes >= p.minimum
    ensures Timed(p, s.(windowBytes := 0, rateDeadline := Some(now + p.window), closed := s.closed + 1),
                  start, activity)
    ensures now >= start + (s.closed + 1) * p.window
  {
    assert (s.closed + 1) * p.minimum == s.closed * p.minimum + p.minimum;
    assert (s.closed + 2) * p.window == (s.closed + 1) * p.window + p.window;
  }

  /** Every frame is in time, and every closed window lasted its full length. */
  ghost predicate InTime(p: Policy, s: Body, s': Body, now: nat, start: nat, activity: nat, o: Outcome)
  {
    && (o.Frame? && p.idleTimeout.Some? ==> now < activity + p.idleTimeout.value)
    && (o.Frame? && p.idleTimeout.Some? && p.totalTimeout.Some? ==> now < start + p.totalTimeout.value)
    && (s'.closed > s.closed ==> start + s'.closed * p.window <= now)
    && s.closed <= s'.closed <= s.closed + 1
  }

  lemma PollKeepsTimed(p: Policy, s: Body, now: nat, start: nat, activity: nat)
    requires Timed(p, s, start, activity) && !s.terminal
    ensures var (s', o) := Poll(p, s, now);
            && Timed(p, s', start, if o.Frame? && o.bytes != [] then now else activity)
            && InTime(p, s, s', now, start, activity, o)
  {
    if !Elapsed(s.totalDeadline, now) && !Elapsed(s.idleDeadline, now) {
      if Elapsed(s.rateDeadline, now) {
        if s.windowBytes >= p.minimum {
          WindowCloses(p, s, now, start, activity);
          AdmitKeepsTimed(p, s.(windowBytes := 0, rateDeadline := Some(now + p.window), closed := s.closed + 1),
                          now, start, activity);
        }
      } else {
        AdmitKeepsTimed(p, s, now, start, activity);
      }
    }
  }

  lemma FirstPollStarts(p: Policy, inner: seq<Inner>, now: nat)
    ensures Timed(p, StartTimers(p, Fresh(inner), now), now, now)
    ensures Poll(p, Fresh(inner), now) == Poll(p, StartTimers(p, Fresh(inner), now), now)
  {
  }

  /** The time data last arrived before poll i, or the first poll's time. */
  function LastActivity(os: seq<Outcome>, times: seq<nat>, i: nat, otherwise: nat): nat
    requires i <= |os| && i <= |times|
  {
    if i == 0 then otherwise
    else if os[i - 1].Frame? && os[i - 1].bytes != [] then times[i - 1]
    else LastActivity(os, times, i - 1, otherwise)
  }

  lemma {:induction false} LastActivityShifts(
      o: Outcome, os: seq<Outcome>, t: nat, times: seq<nat>, i: nat, activity: nat)
    requires i <= |os| == |times|
    ensures LastActivity([o] + os, [t] + times, i + 1, activity)
         == LastActivity(os, times, i, if o.Frame? && o.bytes != [] then t else activity)
  {
    if i > 0 {
      LastActivityShifts(o, os, t, times, i - 1, activity);
    } else {
      assert LastActivity([o] + os, [t] + times, 0, activity) == activity;
    }
  }

  lemma {:induction false} RunIsTimed(p: Policy, s: Body, times: seq<nat>, start: nat, activity: nat, i: nat)
    requires Timed(p, s, start, activity) && !s.terminal && i < |times|
    ensures var (s', os) := Run(p, s, times);
            && s'.forwarded >= s'.closed * p.minimum + s'.windowBytes
            && (os[i].Frame? && p.idleTimeout.Some? ==>
                  && times[i] < LastActivity(os, times, i, activity) + p.idleTimeout.value
                  && (p.totalTimeout.Some? ==> times[i] < start + p.totalTimeout.value))
    decreases |times|
  {
    hide Poll, Frames;
    var (s1, o) := Poll(p, s, times[0]);
    var (s', later) := Run(p, s1, times[1..]);
    var moved := if o.Frame? && o.bytes != [] then times[0] else activity;
    PollKeepsTimed(p, s, times[0], start, activity);
    assert times == [times[0]] + times[1..];
    if s1.terminal {
      TerminalStaysDone(p, s1, times[1..]);
    } else if |times| > 1 {
      RunIsTimed(p, s1, times[1..], start, moved, if i == 0 then 0 else i - 1);
      if i > 0 { LastActivityShifts(o, later, times[0], times[1..], i - 1, activity); }
    }
  }

  /** Main result. In every run: bytes forwarded are at least the floor times
      the number of rate windows closed, plus those of the open window; every
      frame was released strictly before the idle deadline set by the last
      arrival of data and, where there is one, the total deadline set by the
      first poll. */
  lemma FloorAndDeadlinesHold(p: Policy, inner: seq<Inner>, times: seq<nat>, i: nat)
    requires i < |times|
    ensures var (s, os) := Run(p, Fresh(inner), times);
            && s.forwarded == Size(Frames(os))
            && s.forwarded >= s.closed * p.minimum + s.windowBytes
            && (os[i].Frame? && p.idleTimeout.Some? ==>
                  && times[i] < LastActivity(os, times, i, times[0]) + p.idleTimeout.value
                  && (p.totalTimeout.Some? ==> times[i] < times[0] + p.totalTimeout.value))
  {
    FirstPollStarts(p, inner, times[0]);
    RunIsTimed(p, StartTimers(p, Fresh(inner), times[0]), times, times[0], times[0], i);
    RunAccounts(p, Fresh(inner), times);
  }

  ghost predicate Ordered(times: seq<nat>)
  {
    forall i, j :: 0 <= i <= j < |times| ==> times[i] <= times[j]
  }

  lemma {:induction false} WindowsTakeTime(p: Policy, s: Body, times: seq<nat>, start: nat, activity: nat, end: nat)
    requires Timed(p, s, start, activity) && Ordered(times)
    requires start <= end && forall i :: 0 <= i < |times| ==> times[i] <= end
    requires start + s.closed * p.window <= end
    ensures start + Run(p, s, times).0.closed * p.window <= end
    decreases |times|
  {
    if times != [] {
      var (s1, o) := Poll(p, s, times[0]);
      if s.terminal {
        TerminalStaysDone(p, s, times);
      } else {
        PollKeepsTimed(p, s, times[0], start, activity);
        WindowsTakeTime(p, s1, times[1..], start, if o.Frame? && o.bytes != [] then times[0] else activity, end);
      }
    }
  }

  /** Windows cannot be closed early: k of them take at least k window
      lengths since the first poll. */
  lemma ClosedWindowsElapsed(p: Policy, inner: seq<Inner>, times: seq<nat>)
    requires times != [] && Ordered(times)
    ensures Run(p, Fresh(inner), times).0.closed * p.window <= times[|times| - 1] - times[0]
  {
    FirstPollStarts(p, inner, times[0]);
    WindowsTakeTime(p, StartTimers(p, Fresh(inner), times[0]), times, times[0], times[0], times[|times| - 1]);
  }

  /** Main result in the terms an upload is configured with: its size and
      duration are bounded, and what was forwarded makes up at least the
      configured rate over every closed window. */
  lemma UploadsKeepTheirRate(
      maxBytes: nat, idle: nat, total: nat, rate: nat, window: nat, inner: seq<Inner>, times: seq<nat>, i: nat)
    requires i < |times|
    ensures var (s, os) := Run(Upload(maxBytes, idle, total, rate, window), Fresh(inner), times);
            && Size(Frames(os)) <= maxBytes
            && Size(Frames(os)) * NANOS_PER_SECOND
               >= s.closed * Min(rate * window, U64_MAX * NANOS_PER_SECOND)
            && (os[i].Frame? ==> times[i] < times[0] + total)
  {
    var p := Upload(maxBytes, idle, total, rate, window);
    var (s, os) := Run(p, Fresh(inner), times);
    hide Run, Frames, Size, RateFloor.MinimumBytesForWindow;
    ReleasedIsBoundedPrefix(p, inner, times);
    FloorAndDeadlinesHold(p, inner, times, i);
    RateFloor.FloorIsExact(rate, window);
    FloorScales(Size(Frames(os)), s.closed, p.minimum, rate * window);
  }

  lemma FloorScales(size: nat, closed: nat, minimum: nat, product: nat)
    requires size >= closed * minimum
    requires minimum == Min((product + NANOS_PER_SECOND - 1) / NANOS_PER_SECOND, U64_MAX)
    ensures size * NANOS_PER_SECOND >= closed * Min(product, U64_MAX * NANOS_PER_SECOND)
  {
    var clamped := Min(product, U64_MAX * NANOS_PER_SECOND);
    assert minimum * NANOS_PER_SECOND >= clamped;
    assert closed * (minimum * NANOS_PER_SECOND) >= closed * clamped;
    assert closed * (minimum * NANOS_PER_SECOND) == (closed * minimum) * NANOS_PER_SECOND;
  }

  // ---------------------------------------------- exactly when a limit strikes

  function Arrived(o: Outcome): nat { if o.Frame? then |o.bytes| else 0 }

  /** Bytes that arrived at polls `since` up to `until`. */
  function ArrivedBetween(os: seq<Outcome>, since: nat, until: nat): nat
    requires since <= until <= |os|
  {
    if since == until then 0 else ArrivedBetween(os, since, until - 1) + Arrived(os[until - 1])
  }

  /** The poll that opened the rate window in force before poll i: the polling
      times alone decide it. */
  function OpenedAt(window: nat, times: seq<nat>, i: nat): (o: nat)
    requires i <= |times|
    ensures o <= i && (i > 0 ==> o < i)
  {
    if i == 0 then 0
    else
      var o := OpenedAt(window, times, i - 1);
      if times[o] + window <= times[i - 1] then i - 1 else o
  }

  /** The time limit that strikes at poll i, given what arrived before. */
  function Due(p: Policy, os: seq<Outcome>, times: seq<nat>, i: nat): Option<Reason>
    requires i < |times| && i <= |os|
  {
    if p.idleTimeout.None? then None
    else if p.totalTimeout.Some? && times[0] + p.totalTimeout.value <= times[i] then Some(TotalTimeout)
    else if LastActivity(os, times, i, times[0]) + p.idleTimeout.value <= times[i] then Some(IdleTimeout)
    else
      var o := OpenedAt(p.window, times, i);
      if p.minimum > 0 && times[o] + p.window <= times[i] && ArrivedBetween(os, o, i) < p.minimum
      then Some(BelowRate) else None
  }

  lemma {:induction false} RunAround(p: Policy, s: Body, times: seq<nat>, i: nat)
    requires i < |times|
    ensures var (s', os) := Run(p, s, times);
            var (s1, before) := Run(p, s, times[..i]);
            var (s2, o) := Poll(p, s1, times[i]);
            && os[..i] == before && os[i] == o
            && Run(p, s, times[..i + 1]) == (s2, before + [o])
    decreases i
  {
    hide Poll;
    var (s', o) := Poll(p, s, times[0]);
    if i == 0 {
      assert times[..0] == [] && times[..1] == [times[0]];
      assert [o] + [] == [] + [o];
    } else {
      RunAround(p, s', times[1..], i - 1);
      assert times[..i][1..] == times[1..][..i - 1] && times[..i + 1][1..] == times[1..][..i];
      var before := Run(p, s', times[1..][..i - 1]).1;
      var os := Run(p, s', times[1..]).1;
      assert ([o] + os)[..i] == [o] + os[..i - 1];
      assert [o] + (before + [os[i - 1]]) == ([o] + before) + [os[i - 1]];
    }
  }

  /** The timers and the window counter are functions of the times and of
      what arrived. */
  ghost predicate Tracks(p: Policy, s: Body, os: seq<Outcome>, times: seq<nat>, i: nat)
    requires i <= |times| && i <= |os| && times != []
  {
    && s.windowBytes <= s.forwarded <= U64_MAX
    && (p.idleTimeout.None? ==> s.idleDeadline.None? && s.rateDeadline.None? && s.totalDeadline.None?)
    && (p.idleTimeout.Some? ==>
          && s.idleDeadline == Some(LastActivity(os, times, i, times[0]) + p.idleTimeout.value)
          && s.totalDeadline == (if p.totalTimeout.Some? then Some(times[0] + p.totalTimeout.value) else None)
          && (p.minimum == 0 ==> s.rateDeadline.None?)
          && (p.minimum > 0 ==>
                var o := OpenedAt(p.window, times, i);
                && s.rateDeadline == Some(times[o] + p.window)
                && s.windowBytes == ArrivedBetween(os, o, i)))
  }

  lemma PollTracks(p: Policy, s: Body, os: seq<Outcome>, times: seq<nat>, i: nat)
    requires i < |times| && i < |os| && !s.terminal
    requires Tracks(p, s, os, times, i) && os[i] == Poll(p, s, times[i]).1
    ensures os[i].Pending? || os[i].Frame? ==> Tracks(p, Poll(p, s, times[i]).0, os, times, i + 1)
    ensures match Due(p, os, times, i)
            case Some(reason) => os[i] == Fault(reason)
            case None =>
              && os[i] !in {Fault(TotalTimeout), Fault(IdleTimeout), Fault(BelowRate)}
              && Poll(p, s, times[i]).0.inner == Admit(p, s, times[i]).0.inner
              && Poll(p, s, times[i]).0.forwarded == Admit(p, s, times[i]).0.forwarded
              && os[i] == Admit(p, s, times[i]).1
  {
    if Due(p, os, times, i).None? { UnduePollAdmits(p, s, os, times, i); } else { DueStrikes(p, s, os, times, i); }
    hide Poll, Due, Tracks;
    if os[i].Pending? || os[i].Frame? { PollKeepsTrack(p, s, os, times, i); }
  }

  lemma PollKeepsTrack(p: Policy, s: Body, os: seq<Outcome>, times: seq<nat>, i: nat)
    requires i < |times| && i < |os| && !s.terminal
    requires Tracks(p, s, os, times, i) && os[i] == Poll(p, s, times[i]).1 && (os[i].Pending? || os[i].Frame?)
    ensures Tracks(p, Poll(p, s, times[i]).0, os, times, i + 1)
  {
    hide LastActivity, OpenedAt, ArrivedBetween;
    NextActivity(os, times, i);
    if p.minimum > 0 { NextWindow(p.window, os, times, i); }
  }

  lemma DueStrikes(p: Policy, s: Body, os: seq<Outcome>, times: seq<nat>, i: nat)
    requires i < |times| && i <= |os| && !s.terminal
    requires Tracks(p, s, os, times, i) && Due(p, os, times, i).Some?
    ensures Poll(p, s, times[i]).1 == Fault(Due(p, os, times, i).value)
  {
    hide LastActivity, OpenedAt, ArrivedBetween, Admit;
  }

  lemma UnduePollAdmits(p: Policy, s: Body, os: seq<Outcome>, times: seq<nat>, i: nat)
    requires i < |times| && i <= |os| && !s.terminal
    requires Tracks(p, s, os, times, i) && Due(p, os, times, i).None?
    ensures var (a, o) := Admit(p, s, times[i]);
            var (b, o') := Poll(p, s, times[i]);
            o == o' && a.inner == b.inner && a.forwarded == b.forwarded && !(o.Fault? && IsTimeout(o.reason))
  {
    hide LastActivity, OpenedAt, ArrivedBetween;
  }

  lemma NextActivity(os: seq<Outcome>, times: seq<nat>, i: nat)
    requires i < |times| && i < |os|
    ensures LastActivity(os, times, i + 1, times[0])
         == if Arrived(os[i]) > 0 then times[i] else LastActivity(os, times, i, times[0])
  {
  }

  lemma NextWindow(window: nat, os: seq<Outcome>, times: seq<nat>, i: nat)
    requires i < |times| && i < |os|
    ensures var o := OpenedAt(window, times, i);
            var next := OpenedAt(window, times, i + 1);
            && next == (if times[o] + window <= times[i] then i else o)
            && ArrivedBetween(os, next, i + 1)
               == (if times[o] + window <= times[i] then 0 else ArrivedBetween(os, o, i)) + Arrived(os[i])
  {
  }

  /** Nothing has ended the body yet. */
  ghost predicate Alive(os: seq<Outcome>)
  {
    forall j :: 0 <= j < |os| ==> os[j].Pending? || os[j].Frame?
  }

  lemma {:induction false} RunTracks(p: Policy, inner: seq<Inner>, times: seq<nat>, i: nat)
    requires times != [] && i <= |times|
    requires Alive(Run(p, StartTimers(p, Fresh(inner), times[0]), times).1[..i])
    ensures var s0 := StartTimers(p, Fresh(inner), times[0]);
            var s := Run(p, s0, times[..i]).0;
            !s.terminal && Tracks(p, s, Run(p, s0, times).1, times, i)
    decreases i
  {
    hide Poll;
    var s0 := StartTimers(p, Fresh(inner), times[0]);
    var os := Run(p, s0, times).1;
    if i > 0 {
      assert os[i - 1] == os[..i][i - 1];
      assert forall j :: 0 <= j < i - 1 ==> os[..i - 1][j] == os[..i][j];
      RunTracks(p, inner, times, i - 1);
      RunAround(p, s0, times, i - 1);
      var s := Run(p, s0, times[..i - 1]).0;
      PollTracks(p, s, os, times, i - 1);
      PollAccounts(p, s, times[i - 1]);
    }
  }

  lemma StartingEarly(p: Policy, inner: seq<Inner>, times: seq<nat>)
    requires times != []
    ensures Run(p, Fresh(inner), times) == Run(p, StartTimers(p, Fresh(inner), times[0]), times)
  {
    hide Poll;
    FirstPollStarts(p, inner, times[0]);
  }

  predicate IsTimeout(reason: Reason) { reason in {TotalTimeout, IdleTimeout, BelowRate} }

  /** Main result, every poll of every run: while the body is alive, a timeout
      strikes exactly when it is due: total since the first poll, idle since
      the last arrival, rate when the window in force has run out with fewer
      bytes than the floor; after the body has ended there is only the end. */
  lemma TimeoutsAreExact(p: Policy, inner: seq<Inner>, times: seq<nat>, i: nat)
    requires i < |times|
    ensures var os := Run(p, Fresh(inner), times).1;
            if Alive(os[..i])
            then forall reason :: IsTimeout(reason) ==>
                   (os[i] == Fault(reason) <==> Due(p, os, times, i) == Some(reason))
            else os[i] == Done
  {
    hide Poll, LastActivity, OpenedAt, ArrivedBetween, Frames;
    var s0 := StartTimers(p, Fresh(inner), times[0]);
    var os := Run(p, s0, times).1;
    StartingEarly(p, inner, times);
    if Alive(os[..i]) {
      RunTracks(p, inner, times, i);
      RunAround(p, s0, times, i);
      PollTracks(p, Run(p, s0, times[..i]).0, os, times, i);
    } else {
      var j :| 0 <= j < |os[..i]| && !(os[..i][j].Pending? || os[..i][j].Frame?);
      assert os[j] == os[..i][j];
      NothingFollowsAnError(p, s0, times, j, i);
    }
  }

  // ------------------------------------------------------ exactly what passes

  /** What a poll returns when no limit strikes. */
  function Offered(next: Inner): Outcome
  {
    match next
    case Stalled => Pending
    case Data(bytes) => Frame(bytes)
    case Trailers => Fault(TrailersRejected)
    case Broken => Fault(Malformed)
    case End => Done
  }

  function Ideal(inner: seq<Inner>): (os: seq<Outcome>)
    ensures |os| == |inner| && forall i :: 0 <= i < |os| ==> os[i] == Offered(inner[i])
  {
    if inner == [] then [] else [Offered(inner[0])] + Ideal(inner[1..])
  }

  /** Where the data stops. */
  function EndAt(inner: seq<Inner>): (n: nat)
    ensures n <= |inner|
    ensures forall i :: 0 <= i < n ==> inner[i].Data? || inner[i].Stalled?
    ensures EndsWell(inner) <==> n < |inner| && inner[n].End?
  {
    if inner != [] && (inner[0].Data? || inner[0].Stalled?) then 1 + EndAt(inner[1..]) else 0
  }

  /** What is left of an orderly body fits what the policy still allows. */
  ghost predicate Fits(p: Policy, s: Body)
  {
    && EndsWell(s.inner)
    && s.forwarded + Size(Produced(s.inner)) <= Min(p.maxBytes, U64_MAX)
    && (p.declared.Some? ==> s.forwarded + Size(Produced(s.inner)) == p.declared.value)
  }

  lemma AdmitFits(p: Policy, s: Body, now: nat, s': Body)
    requires Fits(p, s)
    requires var t := Admit(p, s, now).0; s'.inner == t.inner && s'.forwarded == t.forwarded
    ensures s'.inner == s.inner[1..] && Admit(p, s, now).1 == Offered(s.inner[0])
    ensures !s.inner[0].End? ==> Fits(p, s')
  {
    if s.inner[0].Data? {
      var rest := Produced(s.inner[1..]);
      assert ([s.inner[0].bytes] + rest)[1..] == rest;
    }
  }

  lemma {:induction false} DueKnowsThePast(
      p: Policy, os: seq<Outcome>, other: seq<Outcome>, times: seq<nat>, i: nat)
    requires i < |times| && i <= |os| && i <= |other| && os[..i] == other[..i]
    ensures Due(p, os, times, i) == Due(p, other, times, i)
  {
    SameActivity(os, other, times, i, times[0]);
    SameArrivals(os, other, OpenedAt(p.window, times, i), i);
  }

  lemma {:induction false} SameActivity(
      os: seq<Outcome>, other: seq<Outcome>, times: seq<nat>, i: nat, otherwise: nat)
    requires i <= |times| && i <= |os| && i <= |other| && os[..i] == other[..i]
    ensures LastActivity(os, times, i, otherwise) == LastActivity(other, times, i, otherwise)
    decreases i
  {
    if i > 0 {
      assert os[i - 1] == os[..i][i - 1] == other[i - 1];
      assert os[..i - 1] == os[..i][..i - 1] == other[..i - 1];
      SameActivity(os, other, times, i - 1, otherwise);
    }
  }

  lemma {:induction false} SameArrivals(os: seq<Outcome>, other: seq<Outcome>, since: nat, until: nat)
    requires since <= until <= |os| && until <= |other| && os[..until] == other[..until]
    ensures ArrivedBetween(os, since, until) == ArrivedBetween(other, since, until)
    decreases until
  {
    if until != since {
      assert os[until - 1] == os[..until][until - 1] == other[until - 1];
      assert os[..until - 1] == os[..until][..until - 1] == other[..until - 1];
      SameArrivals(os, other, since, until - 1);
    }
  }

  /** As long as no limit is due, the run follows the inner body. */
  lemma {:induction false} RunFollows(p: Policy, inner: seq<Inner>, times: seq<nat>, i: nat)
    requires times != [] && Fits(p, Fresh(inner)) && i <= EndAt(inner) && i <= |times|
    requires NeverDue(p, inner, times, i)
    ensures var s0 := StartTimers(p, Fresh(inner), times[0]);
            var s := Run(p, s0, times[..i]).0;
            && Run(p, s0, times).1[..i] == Ideal(inner)[..i]
            && s.inner == inner[i..] && Fits(p, s)
    decreases i
  {
    hide Poll, Fits, Due, Admit, Run, StartTimers, EndAt;
    var s0 := StartTimers(p, Fresh(inner), times[0]);
    var os := Run(p, s0, times).1;
    if i == 0 {
      NoPolls(p, inner, times);
      SameBodyFits(p, Fresh(inner), s0);
    } else {
      RunFollows(p, inner, times, i - 1);
      var s := Run(p, s0, times[..i - 1]).0;
      FollowingPoll(p, inner, times, i - 1);
      RunAround(p, s0, times, i - 1);
      var s' := Poll(p, s, times[i - 1]).0;
      AdmitFits(p, s, times[i - 1], s');
      DropOne(inner, s.inner, i - 1);
      assert Ideal(inner)[i - 1] == Offered(inner[i - 1]);
      AgreeFurther(os, Ideal(inner), i - 1);
    }
  }

  lemma AgreeFurther<T>(a: seq<T>, b: seq<T>, i: nat)
    requires i < |a| && i < |b| && a[..i] == b[..i] && a[i] == b[i]
    ensures a[..i + 1] == b[..i + 1]
  {
    assert a[..i + 1] == a[..i] + [a[i]];
    assert b[..i + 1] == b[..i] + [b[i]];
  }

  lemma DropOne<T>(whole: seq<T>, rest: seq<T>, i: nat)
    requires i < |whole| && rest == whole[i..]
    ensures rest[0] == whole[i] && rest[1..] == whole[i + 1..]
  {
  }

  lemma NoPolls(p: Policy, inner: seq<Inner>, times: seq<nat>)
    requires times != []
    ensures var s0 := StartTimers(p, Fresh(inner), times[0]);
            && s0.inner == inner && s0.forwarded == 0
            && Run(p, s0, times[..0]) == (s0, [])
  {
  }

  /** The poll that comes next in such a run. */
  lemma FollowingPoll(p: Policy, inner: seq<Inner>, times: seq<nat>, i: nat)
    requires i < |times| && Fits(p, Fresh(inner)) && i <= EndAt(inner)
    requires Run(p, StartTimers(p, Fresh(inner), times[0]), times).1[..i] == Ideal(inner)[..i]
    ensures var s0 := StartTimers(p, Fresh(inner), times[0]);
            var s := Run(p, s0, times[..i]).0;
            var o := Run(p, s0, times).1[i];
            match Due(p, Ideal(inner), times, i)
            case Some(reason) => o == Fault(reason)
            case None =>
              && o == Admit(p, s, times[i]).1
              && Poll(p, s, times[i]).0.inner == Admit(p, s, times[i]).0.inner
              && Poll(p, s, times[i]).0.forwarded == Admit(p, s, times[i]).0.forwarded
  {
    hide Poll, Admit, Due;
    var s0 := StartTimers(p, Fresh(inner), times[0]);
    var os := Run(p, s0, times).1;
    forall j | 0 <= j < i ensures os[..i][j].Pending? || os[..i][j].Frame? {
      assert os[..i][j] == Ideal(inner)[..i][j] == Offered(inner[j]);
    }
    RunTracks(p, inner, times, i);
    RunAround(p, s0, times, i);
    PollTracks(p, Run(p, s0, times[..i]).0, os, times, i);
    DueKnowsThePast(p, os, Ideal(inner), times, i);
  }

  lemma SameBodyFits(p: Policy, s: Body, t: Body)
    requires Fits(p, s) && t.inner == s.inner && t.forwarded == s.forwarded
    ensures Fits(p, t)
  {
  }

  lemma WellIsNonempty(inner: seq<Inner>)
    requires EndsWell(inner)
    ensures inner != []
  {
  }

  lemma PollTakesOne(p: Policy, s: Body, now: nat)
    requires !s.terminal && s.inner != [] && !Poll(p, s, now).1.Fault?
    ensures EndAt(s.inner) == if Poll(p, s, now).1.Done? then 0 else 1 + EndAt(Poll(p, s, now).0.inner)
  {
  }

  /** Each poll meets at most one step of the inner body. */
  lemma {:induction false} CleanEndNeedsPolls(p: Policy, s: Body, times: seq<nat>)
    requires !s.terminal && EndedCleanly(Run(p, s, times).1)
    ensures EndsWell(s.inner) && EndAt(s.inner) < |times|
    decreases |times|
  {
    hide Poll, EndAt, Produced, Size, Frames, EndsWell;
    var (s1, o) := Poll(p, s, times[0]);
    var later := Run(p, s1, times[1..]).1;
    RunAccounts(p, s, times);
    assert ([o] + later)[0] == o;
    WellIsNonempty(s.inner);
    PollTakesOne(p, s, times[0]);
    PollAccounts(p, s, times[0]);
    if !o.Done? {
      forall i | 0 <= i < |later| ensures !later[i].Fault? { assert later[i] == ([o] + later)[i + 1]; }
      CleanEndNeedsPolls(p, s1, times[1..]);
    }
  }

  /** Main result, both directions. A body ends cleanly exactly when its inner
      body ends in order, fits the cap and its declared length, is polled to
      its end, and no time limit is due at any of those polls. */
  lemma BodiesPassExactly(p: Policy, inner: seq<Inner>, times: seq<nat>)
    ensures EndedCleanly(Run(p, Fresh(inner), times).1) <==>
              && Fits(p, Fresh(inner))
              && EndAt(inner) < |times|
              && NeverDue(p, inner, times, EndAt(inner) + 1)
  {
    hide Run, Fits, NeverDue, EndedCleanly;
    if EndedCleanly(Run(p, Fresh(inner), times).1) {
      CleanEndNeedsPolls(p, Fresh(inner), times);
      CleanEndFits(p, inner, times);
      CleanEndWasNeverDue(p, inner, times, EndAt(inner) + 1);
    }
    if Fits(p, Fresh(inner)) && EndAt(inner) < |times| && NeverDue(p, inner, times, EndAt(inner) + 1) {
      FitsEndsWell(p, Fresh(inner));
      UndueEndsCleanly(p, inner, times);
    }
  }

  /** No time limit strikes an undisturbed body at its first `polls` polls. */
  ghost predicate NeverDue(p: Policy, inner: seq<Inner>, times: seq<nat>, polls: nat)
    requires polls <= |times| && polls <= |inner| + 1
  {
    forall i :: 0 <= i < polls ==> Due(p, Ideal(inner), times, i).None?
  }

  lemma CleanEndFits(p: Policy, inner: seq<Inner>, times: seq<nat>)
    requires EndedCleanly(Run(p, Fresh(inner), times).1)
    ensures Fits(p, Fresh(inner))
  {
    RunAccounts(p, Fresh(inner), times);
  }

  lemma {:induction false} CleanEndWasNeverDue(p: Policy, inner: seq<Inner>, times: seq<nat>, i: nat)
    requires EndedCleanly(Run(p, Fresh(inner), times).1) && Fits(p, Fresh(inner))
    requires i <= EndAt(inner) + 1 <= |times|
    ensures NeverDue(p, inner, times, i)
    decreases i
  {
    hide Poll, Due, Admit, Fits, Run, StartTimers, EndAt;
    if i > 0 {
      CleanEndWasNeverDue(p, inner, times, i - 1);
      StartingEarly(p, inner, times);
      RunFollows(p, inner, times, i - 1);
      FollowingPoll(p, inner, times, i - 1);
    }
  }

  lemma UndueEndsCleanly(p: Policy, inner: seq<Inner>, times: seq<nat>)
    requires Fits(p, Fresh(inner)) && EndAt(inner) < |times|
    requires NeverDue(p, inner, times, EndAt(inner) + 1)
    ensures EndedCleanly(Run(p, Fresh(inner), times).1)
  {
    hide Poll, Due, Admit, Fits, StartTimers, Run;
    FitsEndsWell(p, Fresh(inner));
    var n := EndAt(inner);
    var s0 := StartTimers(p, Fresh(inner), times[0]);
    var os := Run(p, s0, times).1;
    StartingEarly(p, inner, times);
    RunFollows(p, inner, times, n);
    FollowingPoll(p, inner, times, n);
    var s := Run(p, s0, times[..n]).0;
    AdmitFits(p, s, times[n], Admit(p, s, times[n]).0);
    assert s.inner[0] == inner[n];
    assert os[n] == Done;
    forall i | 0 <= i < |os| ensures !os[i].Fault? {
      if i < n {
        assert os[i] == os[..n][i] == Ideal(inner)[..n][i] == Offered(inner[i]);
      } else if i > n {
        NothingFollowsAnError(p, s0, times, n, i);
      }
    }
  }

  lemma FitsEndsWell(p: Policy, s: Body)
    requires Fits(p, s)
    ensures EndsWell(s.inner)
  {
  }

  // ----------------------------------------------- every outcome, exactly

  /** While the body is alive, each poll has met one step of the inner body. */
  lemma {:induction false} PollsMeetSteps(p: Policy, inner: seq<Inner>, times: seq<nat>, i: nat)
    requires times != [] && i <= |times|
    requires Alive(Run(p, StartTimers(p, Fresh(inner), times[0]), times).1[..i])
    ensures var s := Run(p, StartTimers(p, Fresh(inner), times[0]), times[..i]).0;
            !s.terminal && s.inner == if i <= |inner| then inner[i..] else []
    decreases i
  {
    hide StartTimers, Produced, EndsWell;
    var s0 := StartTimers(p, Fresh(inner), times[0]);
    NoPolls(p, inner, times);
    if i > 0 {
      var os := Run(p, s0, times).1;
      assert os[i - 1] == os[..i][i - 1];
      assert forall j :: 0 <= j < i - 1 ==> os[..i - 1][j] == os[..i][j];
      PollsMeetSteps(p, inner, times, i - 1);
      RunAround(p, s0, times, i - 1);
      hide Run;
      var s := Run(p, s0, times[..i - 1]).0;
      PollAccounts(p, s, times[i - 1]);
      PollStepsOn(p, s, times[i - 1]);
    } else {
      RunTracks(p, inner, times, 0);
    }
  }

  lemma PollStepsOn(p: Policy, s: Body, now: nat)
    requires !s.terminal && (Poll(p, s, now).1.Pending? || Poll(p, s, now).1.Frame?)
    ensures Poll(p, s, now).0.inner == if s.inner == [] then [] else s.inner[1..]
  {
  }

  /** What a live body returns at poll i, no time limit being due: read off the
      step of the inner body it meets and the bytes released before. */
  function Expected(p: Policy, inner: seq<Inner>, released: nat, i: nat): Outcome
  {
    if i >= |inner| then Pending
    else match inner[i]
      case Stalled => Pending
      case Broken => Fault(Malformed)
      case Trailers => Fault(TrailersRejected)
      case Data(bytes) =>
        if released + |bytes| > Min(p.maxBytes, U64_MAX) then Fault(TooLong)
        else if p.declared.Some? && released + |bytes| > p.declared.value then Fault(PastDeclaredLength)
        else Frame(bytes)
      case End => if p.declared.Some? && p.declared.value != released then Fault(EndedEarly) else Done
  }

  /** Main result: the whole behaviour of a body guard, poll by poll. After an
      end there is only the end; a due time limit comes first; otherwise the
      inner body decides. */
  lemma OutcomesAreExact(p: Policy, inner: seq<Inner>, times: seq<nat>, i: nat)
    requires i < |times|
    ensures var os := Run(p, Fresh(inner), times).1;
            os[i] == if !Alive(os[..i]) then Done
                     else if Due(p, os, times, i).Some? then Fault(Due(p, os, times, i).value)
                     else Expected(p, inner, Size(Frames(os[..i])), i)
  {
    hide Poll, LastActivity, OpenedAt, ArrivedBetween, Due;
    var s0 := StartTimers(p, Fresh(inner), times[0]);
    var os := Run(p, s0, times).1;
    StartingEarly(p, inner, times);
    TimeoutsAreExact(p, inner, times, i);
    if Alive(os[..i]) {
      NoPolls(p, inner, times);
      hide StartTimers, Expected;
      RunTracks(p, inner, times, i);
      PollsMeetSteps(p, inner, times, i);
      RunAround(p, s0, times, i);
      var s := Run(p, s0, times[..i]).0;
      RunForwards(p, s0, times[..i]);
      PollTracks(p, s, os, times, i);
      AdmitIsExpected(p, s, times[i], inner, i);
    }
  }

  lemma RunForwards(p: Policy, s: Body, times: seq<nat>)
    requires !s.terminal
    ensures var (s', os) := Run(p, s, times); s'.forwarded == s.forwarded + Size(Frames(os))
  {
    RunAccounts(p, s, times);
  }

  lemma AdmitIsExpected(p: Policy, s: Body, now: nat, inner: seq<Inner>, i: nat)
    requires s.inner == if i <= |inner| then inner[i..] else []
    ensures Admit(p, s, now).1 == Expected(p, inner, s.forwarded, i)
  {
    if i < |inner| { assert s.inner[0] == inner[i]; }
  }

  /** The bytes a window of this length must carry at this rate. */
  function FloorOf(rate: nat, window: nat): nat
  {
    Min((rate * window + 999_999_999) / 1_000_000_000, 0xFFFF_FFFF_FFFF_FFFF)
  }

  /** The time limits of an upload, in the terms it is configured with. */
  lemma UploadLimitsAreExact(
      maxBytes: nat, idle: nat, total: nat, rate: nat, window: nat, inner: seq<Inner>, times: seq<nat>, i: nat)
    requires i < |times|
    ensures var p := Upload(maxBytes, idle, total, rate, window);
            var os := Run(p, Fresh(inner), times).1;
            && p.maxBytes == maxBytes && p.declared == None
            && Due(p, os, times, i)
               == if times[i] >= times[0] + total then Some(TotalTimeout)
                  else if times[i] >= LastActivity(os, times, i, times[0]) + idle then Some(IdleTimeout)
                  else
                    var o := OpenedAt(window, times, i);
                    if times[i] >= times[o] + window && ArrivedBetween(os, o, i) < FloorOf(rate, window)
                    then Some(BelowRate) else None
  {
    hide Run, LastActivity, OpenedAt, ArrivedBetween, RateFloor.MinimumBytesForWindow;
    RateFloor.FloorIsExact(rate, window);
  }

  /** The time limits of a response, in the terms it is configured with. */
  lemma ResponseLimitsAreExact(
      declared: Option<nat>, maxBytes: nat, idle: nat, rate: nat, window: nat,
      inner: seq<Inner>, times: seq<nat>, i: nat)
    requires i < |times|
    ensures var p := Streaming(declared, maxBytes, idle, rate, window);
            var os := Run(p, Fresh(inner), times).1;
            && p.maxBytes == maxBytes && p.declared == declared
            && Due(p, os, times, i)
               == if times[i] >= LastActivity(os, times, i, times[0]) + idle then Some(IdleTimeout)
                  else
                    var o := OpenedAt(window, times, i);
                    if times[i] >= times[o] + window && ArrivedBetween(os, o, i) < FloorOf(rate, window)
                    then Some(BelowRate) else None
  {
    hide Run, LastActivity, OpenedAt, ArrivedBetween, RateFloor.MinimumBytesForWindow;
    RateFloor.FloorIsExact(rate, window);
  }
}
