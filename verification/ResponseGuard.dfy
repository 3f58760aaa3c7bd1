/** The stream wrapper that withholds an upstream response until its head has
    been validated, and the one that replays an already-read prefix. */
module ResponseGuard {
  import opened Common
  import opened ByteStream
  import opened ResponseHead

  const CHUNK: nat := 4096

  /** `fault` is what the head validator finds wrong with a complete head. */
  datatype Config = Config(maxHeaderBytes: nat, fault: Bytes -> Option<HeadFault>)

  function Configured(maxHeaderBytes: nat, allowSwitching: bool, parse: Bytes -> Option<ParsedHead>): Config
  {
    Config(maxHeaderBytes, head => Fault(parse, allowSwitching, head))
  }

  datatype ReadError = Refused(why: Refusal) | Io | AlreadyRejected

  datatype Refusal = BadHead(fault: HeadFault) | HeadTooLong | HeadTruncated

  datatype Outcome = Pending | Failed(error: ReadError) | Ready(data: Bytes)

  datatype Guard = Guard(inner: Upstream, prefix: Bytes, validated: bool, rejected: bool)

  function Rejecting(g: Guard): Guard { g.(prefix := [], rejected := true) }

  /** Reading the head: `None` when it has been validated, otherwise what the
      poll returns at once. */
  function Fill(c: Config, g: Guard): (Guard, Option<Outcome>)
    decreases |g.inner.schedule|
  {
    if g.validated then (g, None)
    else match HeaderEnd(g.prefix)
      case Some(end) =>
        (match c.fault(g.prefix[..end])
         case None => (g.(validated := true), None)
         case Some(fault) => (Rejecting(g), Some(Failed(Refused(BadHead(fault))))))
      case None =>
        if |g.prefix| >= c.maxHeaderBytes then (Rejecting(g), Some(Failed(Refused(HeadTooLong))))
        else
          var (inbound, inner) := Read(g.inner, Min(c.maxHeaderBytes - |g.prefix|, CHUNK));
          match inbound
          case Waiting => (g.(inner := inner), Some(Pending))
          case Broken => (Rejecting(g.(inner := inner)), Some(Failed(Io)))
          case Arrived(data) =>
            if data == [] then (Rejecting(g.(inner := inner)), Some(Failed(Refused(HeadTruncated))))
            else Fill(c, g.(inner := inner, prefix := g.prefix + data))
  }

  /** Handing over buffered bytes first, then reading through. */
  function Drain(inner: Upstream, prefix: Bytes, capacity: nat): (Upstream, Bytes, Outcome)
  {
    if prefix != [] then
      var count := Min(|prefix|, capacity);
      (inner, prefix[count..], Ready(prefix[..count]))
    else
      var (inbound, inner') := Read(inner, capacity);
      (inner', [], match inbound
                   case Waiting => Pending
                   case Broken => Failed(Io)
                   case Arrived(data) => Ready(data))
  }

  function Poll(c: Config, g: Guard, capacity: nat): (Guard, Outcome)
  {
    if g.rejected then (g, Failed(AlreadyRejected))
    else
      var (g', early) := Fill(c, g);
      match early
      case Some(outcome) => (g', outcome)
      case None =>
        var (inner, prefix, outcome) := Drain(g'.inner, g'.prefix, capacity);
        (g'.(inner := inner, prefix := prefix), outcome)
  }

  class ResponseGuardIo {
    const config: Config
    var inner: Upstream
    var prefix: Bytes
    var validated: bool
    var rejected: bool

    ghost function State(): Guard
      reads this
    {
      Guard(inner, prefix, validated, rejected)
    }

    constructor (config: Config, inner: Upstream)
      ensures State() == Fresh(inner) && this.config == config
    {
      this.config := config;
      this.inner := inner;
      prefix, validated, rejected := [], false, false;
    }

    method PollRead(capacity: nat) returns (outcome: Outcome)
      modifies this
      ensures (State(), outcome) == Poll(config, old(State()), capacity)
    {
      if rejected { return Failed(AlreadyRejected); }
      while !validated
        invariant !rejected && !old(rejected)
        invariant Fill(config, State()) == Fill(config, old(State()))
        decreases |inner.schedule|, !validated
      {
        var end := HeaderEnd(prefix);
        if end.Some? {
          var fault := config.fault(prefix[..end.value]);
          if fault.Some? {
            prefix, rejected := [], true;
            return Failed(Refused(BadHead(fault.value)));
          }
          validated := true;
          break;
        }
        if |prefix| >= config.maxHeaderBytes {
          prefix, rejected := [], true;
          return Failed(Refused(HeadTooLong));
        }
        var (inbound, inner') := Read(inner, Min(config.maxHeaderBytes - |prefix|, CHUNK));
        inner := inner';
        match inbound {
          case Waiting => return Pending;
          case Broken =>
            prefix, rejected := [], true;
            return Failed(Io);
          case Arrived(data) =>
            if |data| == 0 {
              prefix, rejected := [], true;
              return Failed(Refused(HeadTruncated));
            }
            prefix := prefix + data;
        }
      }
      if |prefix| > 0 {
        var count := Min(|prefix|, capacity);
        outcome := Ready(prefix[..count]);
        prefix := prefix[count..];
        return;
      }
      var (inbound, inner') := Read(inner, capacity);
      inner := inner';
      match inbound {
        case Waiting => return Pending;
        case Broken => return Failed(Io);
        case Arrived(data) => return Ready(data);
      }
    }
  }

  // ------------------------------------------------------------------- runs

  function Fresh(inner: Upstream): Guard { Guard(inner, [], false, false) }

  function Run(c: Config, g: Guard, capacities: seq<nat>): (r: (Guard, seq<Outcome>))
    ensures |r.1| == |capacities|
    decreases |capacities|
  {
    if capacities == [] then (g, [])
    else
      var (g', o) := Poll(c, g, capacities[0]);
      var (g'', os) := Run(c, g', capacities[1..]);
      (g'', [o] + os)
  }

  /** Every byte the reader received, in order. */
  function Received(outcomes: seq<Outcome>): Bytes
  {
    if outcomes == [] then []
    else (if outcomes[0].Ready? then outcomes[0].data else []) + Received(outcomes[1..])
  }

  datatype Verdict = Accept | Refuse(why: Refusal)

  /** The fate of a byte stream, read off the whole stream at once. */
  function Judge(c: Config, stream: Bytes): Verdict
  {
    match HeaderEnd(stream)
    case Some(end) =>
      if end > c.maxHeaderBytes then Refuse(HeadTooLong)
      else (match c.fault(stream[..end])
            case None => Accept
            case Some(fault) => Refuse(BadHead(fault)))
    case None => if |stream| >= c.maxHeaderBytes then Refuse(HeadTooLong) else Refuse(HeadTruncated)
  }

  /** `stream` is everything the upstream sends, `delivered` what the reader
      has already received. */
  ghost predicate Inv(c: Config, stream: Bytes, g: Guard, delivered: Bytes)
  {
    && |g.prefix| <= c.maxHeaderBytes
    && (g.rejected ==> delivered == [] && !g.validated && g.prefix == [])
    && (!g.rejected ==> delivered + g.prefix + g.inner.pending == stream)
    && (!g.validated ==> delivered == [])
    && (g.validated ==> Judge(c, stream) == Accept)
  }

  /** How reading the head from `g` may stop, and what that says of the stream. */
  ghost predicate Filled(c: Config, stream: Bytes, g: Guard, g': Guard, early: Option<Outcome>)
  {
    && (forall t :: t in g'.inner.schedule ==> t in g.inner.schedule)
    && match early
       case None => g'.validated
       case Some(Pending) => !g'.validated && (g'.inner.schedule == [] || Stall in g.inner.schedule)
       case Some(Failed(Io)) => !g'.validated && g'.rejected && Fail in g.inner.schedule
       case Some(Failed(Refused(why))) => !g'.validated && g'.rejected && Judge(c, stream) == Refuse(why)
       case _ => false
  }

  lemma JudgeKnowsHead(c: Config, prefix: Bytes, more: Bytes)
    requires HeaderEnd(prefix).Some? && |prefix| <= c.maxHeaderBytes
    ensures Judge(c, prefix + more)
         == match c.fault(prefix[..HeaderEnd(prefix).value])
            case None => Accept
            case Some(fault) => Refuse(BadHead(fault))
  {
    hide HeaderEnd;
    HeaderEndIsStable(prefix, more);
    assert (prefix + more)[..HeaderEnd(prefix).value] == prefix[..HeaderEnd(prefix).value];
  }

  lemma JudgeKnowsTooLong(c: Config, prefix: Bytes, more: Bytes)
    requires HeaderEnd(prefix).None? && |prefix| >= c.maxHeaderBytes
    ensures Judge(c, prefix + more) == Refuse(HeadTooLong)
  {
    hide HeaderEnd;
    HeaderEndIsStable(prefix, more);
  }

  lemma JudgeKnowsTruncated(c: Config, stream: Bytes)
    requires HeaderEnd(stream).None? && |stream| < c.maxHeaderBytes
    ensures Judge(c, stream) == Refuse(HeadTruncated)
  {
    hide HeaderEnd;
  }

  lemma {:induction false} FillKeepsInv(c: Config, stream: Bytes, g: Guard)
    requires Inv(c, stream, g, []) && !g.rejected && !g.validated
    ensures var (g', early) := Fill(c, g); Inv(c, stream, g', []) && Filled(c, stream, g, g', early)
    decreases |g.inner.schedule|
  {
    hide Judge, HeaderEnd, Read;
    assert [] + g.prefix + g.inner.pending == g.prefix + g.inner.pending;
    HeaderEndIsStable(g.prefix, g.inner.pending);
    var end := HeaderEnd(g.prefix);
    if end.Some? {
      JudgeKnowsHead(c, g.prefix, g.inner.pending);
    } else if |g.prefix| >= c.maxHeaderBytes {
      JudgeKnowsTooLong(c, g.prefix, g.inner.pending);
    } else {
      var room := Min(c.maxHeaderBytes - |g.prefix|, CHUNK);
      var (inbound, inner) := Read(g.inner, room);
      ReadTakesInOrder(g.inner, room);
      ReadSpendsATurn(g.inner, room);
      if inbound.Arrived? {
        if inbound.data == [] {
          assert stream == g.prefix;
          JudgeKnowsTruncated(c, stream);
        } else {
          var next := g.(inner := inner, prefix := g.prefix + inbound.data);
          assert [] + next.prefix + next.inner.pending == g.prefix + g.inner.pending;
          FillKeepsInv(c, stream, next);
        }
      }
    }
  }

  /** What one poll may return, given the stream it is made on. */
  ghost predicate Honest(c: Config, stream: Bytes, schedule: seq<Turn>, capacity: nat,
                         delivered: Bytes, g': Guard, o: Outcome)
  {
    match o
    case Pending => g'.inner.schedule == [] || Stall in schedule
    case Ready(data) =>
      && Judge(c, stream) == Accept
      && (data == [] && capacity > 0 ==> delivered == stream)
    case Failed(AlreadyRejected) => true
    case Failed(Io) => Fail in schedule && (Judge(c, stream) != Accept ==> g'.rejected)
    case Failed(Refused(why)) => Judge(c, stream) == Refuse(why) && g'.rejected
  }

  function Gained(o: Outcome): Bytes { if o.Ready? then o.data else [] }

  lemma PollKeepsInv(c: Config, stream: Bytes, g: Guard, capacity: nat, delivered: Bytes)
    requires Inv(c, stream, g, delivered)
    ensures var (g', o) := Poll(c, g, capacity);
            && Inv(c, stream, g', delivered + Gained(o))
            && Honest(c, stream, g.inner.schedule, capacity, delivered, g', o)
            && (o == Failed(AlreadyRejected) <==> g.rejected)
            && (g.rejected ==> g'.rejected)
            && (forall t :: t in g'.inner.schedule ==> t in g.inner.schedule)
  {
    assert delivered + [] == delivered;
    if !g.rejected {
      if !g.validated { FillKeepsInv(c, stream, g); }
      var (f, early) := Fill(c, g);
      if early.None? { DrainKeepsInv(c, stream, f, capacity, delivered); }
    }
  }

  lemma DrainKeepsInv(c: Config, stream: Bytes, g: Guard, capacity: nat, delivered: Bytes)
    requires Inv(c, stream, g, delivered) && g.validated
    ensures var (inner, prefix, o) := Drain(g.inner, g.prefix, capacity);
            var g' := g.(inner := inner, prefix := prefix);
            && Inv(c, stream, g', delivered + Gained(o))
            && Honest(c, stream, g.inner.schedule, capacity, delivered, g', o)
            && o != Failed(AlreadyRejected)
            && (forall t :: t in inner.schedule ==> t in g.inner.schedule)
  {
    hide Judge;
    var (inner, prefix, o) := Drain(g.inner, g.prefix, capacity);
    if g.prefix == [] {
      ReadTakesInOrder(g.inner, capacity);
      ReadSpendsATurn(g.inner, capacity);
      assert delivered + [] + g.inner.pending == delivered + g.inner.pending;
      if o.Ready? {
        assert (delivered + o.data) + [] + inner.pending == delivered + (o.data + inner.pending);
      } else {
        assert (delivered + []) + [] + inner.pending == delivered + [] + g.inner.pending;
      }
    } else {
      assert g.prefix == o.data + prefix;
      assert (delivered + o.data) + prefix + inner.pending == delivered + g.prefix + g.inner.pending;
    }
  }

  lemma {:induction false} RunKeepsInv(c: Config, stream: Bytes, g: Guard, capacities: seq<nat>, delivered: Bytes)
    requires Inv(c, stream, g, delivered)
    ensures var (g', os) := Run(c, g, capacities);
            && Inv(c, stream, g', delivered + Received(os))
            && (g.rejected ==> forall i :: 0 <= i < |os| ==> os[i] == Failed(AlreadyRejected))
            && (forall t :: t in g'.inner.schedule ==> t in g.inner.schedule)
    decreases |capacities|
  {
    hide Inv, Poll, Honest;
    if capacities == [] {
      assert delivered + [] == delivered;
    } else {
      var (g', o) := Poll(c, g, capacities[0]);
      PollKeepsInv(c, stream, g, capacities[0], delivered);
      RunKeepsInv(c, stream, g', capacities[1..], delivered + Gained(o));
      var os := Run(c, g', capacities[1..]).1;
      assert (delivered + Gained(o)) + Received(os) == delivered + (Gained(o) + Received(os));
      assert Received([o] + os) == Gained(o) + Received(os) by { assert ([o] + os)[1..] == os; }
    }
  }

  /** The run before, at and after poll `i`. */
  lemma {:induction false} RunAround(c: Config, g: Guard, capacities: seq<nat>, i: nat)
    requires i < |capacities|
    ensures var (g', os) := Run(c, g, capacities);
            var (g1, before) := Run(c, g, capacities[..i]);
            var (g2, o) := Poll(c, g1, capacities[i]);
            var (g3, after) := Run(c, g2, capacities[i + 1..]);
            g' == g3 && os == before + [o] + after
    decreases i
  {
    var (g', o) := Poll(c, g, capacities[0]);
    if i == 0 {
      assert capacities[..0] == [];
      var after := Run(c, g', capacities[1..]).1;
      assert [] + [o] + after == [o] + after;
    } else {
      RunAround(c, g', capacities[1..], i - 1);
      assert capacities[..i][1..] == capacities[1..][..i - 1] && capacities[..i][0] == capacities[0];
      assert capacities[i + 1..] == capacities[1..][i..];
      var (g1, before) := Run(c, g', capacities[1..][..i - 1]);
      var (g2, o') := Poll(c, g1, capacities[i]);
      var (g3, after) := Run(c, g2, capacities[1..][i..]);
      assert [o] + (before + [o'] + after) == ([o] + before) + [o'] + after;
    }
  }

  // ---------------------------------------------------- what the history says

  ghost predicate Released(history: seq<Outcome>)
  {
    exists i :: 0 <= i < |history| && history[i].Ready?
  }

  /** Some read failed before anything was released. */
  ghost predicate Latched(history: seq<Outcome>)
  {
    exists j :: 0 <= j < |history| && history[j].Failed? && !Released(history[..j])
  }

  /** Both flags of the guard can be read off the outcomes so far. */
  ghost predicate Tells(g: Guard, history: seq<Outcome>)
  {
    && !(g.rejected && g.validated)
    && (g.validated <==> Released(history))
    && (g.rejected <==> Latched(history))
  }

  lemma {:induction false} FillTells(c: Config, g: Guard)
    requires !g.rejected && !g.validated
    ensures var (g', early) := Fill(c, g);
            match early
            case None => g'.validated && !g'.rejected && g'.prefix != []
            case Some(o) =>
              && !g'.validated && !o.Ready? && (g'.rejected <==> o.Failed?)
              && o != Failed(AlreadyRejected)
    decreases |g.inner.schedule|
  {
    var room := if |g.prefix| < c.maxHeaderBytes then Min(c.maxHeaderBytes - |g.prefix|, CHUNK) else 0;
    var (inbound, inner) := Read(g.inner, room);
    if HeaderEnd(g.prefix).None? && |g.prefix| < c.maxHeaderBytes && inbound.Arrived? && inbound.data != [] {
      FillTells(c, g.(inner := inner, prefix := g.prefix + inbound.data));
    }
  }

  lemma HistoryGrows(history: seq<Outcome>, o: Outcome)
    ensures Released(history + [o]) <==> Released(history) || o.Ready?
    ensures Latched(history + [o]) <==> Latched(history) || (o.Failed? && !Released(history))
  {
    var longer := history + [o];
    assert longer[|history|] == o && longer[..|history|] == history;
    forall j | 0 <= j < |history|
      ensures longer[j] == history[j] && longer[..j] == history[..j]
    {
    }
    if Released(history) {
      var i :| 0 <= i < |history| && history[i].Ready?;
      assert longer[i].Ready?;
    }
    if Latched(history) {
      var j :| 0 <= j < |history| && history[j].Failed? && !Released(history[..j]);
      assert longer[j].Failed? && !Released(longer[..j]);
    }
  }

  lemma PollTells(c: Config, g: Guard, capacity: nat, history: seq<Outcome>)
    requires Tells(g, history)
    ensures var (g', o) := Poll(c, g, capacity); Tells(g', history + [o])
    ensures Poll(c, g, capacity).1 == Failed(AlreadyRejected) <==> g.rejected
  {
    hide Released, Latched;
    HistoryGrows(history, Poll(c, g, capacity).1);
    if !g.rejected && !g.validated { FillTells(c, g); }
  }

  lemma {:induction false} RunTells(c: Config, g: Guard, capacities: seq<nat>, history: seq<Outcome>)
    requires Tells(g, history)
    ensures var (g', os) := Run(c, g, capacities); Tells(g', history + os)
    decreases |capacities|
  {
    hide Tells, Poll;
    if capacities == [] {
      assert history + [] == history;
    } else {
      var (g', o) := Poll(c, g, capacities[0]);
      PollTells(c, g, capacities[0], history);
      RunTells(c, g', capacities[1..], history + [o]);
      var os := Run(c, g', capacities[1..]).1;
      assert (history + [o]) + os == history + ([o] + os);
    }
  }

  // --------------------------------------------------------------- progress

  /** Reading the head of a working socket wastes no delivery. */
  lemma {:induction false} FillProgresses(c: Config, g: Guard)
    requires !g.rejected && !g.validated && Fail !in g.inner.schedule
    requires Deliveries(g.inner.schedule) > |g.inner.pending|
    ensures var (g', early) := Fill(c, g);
            && Fail !in g'.inner.schedule
            && (early.None? || early == Some(Pending) || (early.value.Failed? && early.value.error.Refused?))
            && (!g'.rejected ==>
                  && Deliveries(g'.inner.schedule) + |g.inner.pending|
                     >= Deliveries(g.inner.schedule) + |g'.inner.pending|
                  && |g'.prefix| + |g'.inner.pending| == |g.prefix| + |g.inner.pending|
                  && Stalls(g'.inner.schedule) + (if early.Some? then 1 else 0) == Stalls(g.inner.schedule))
    decreases |g.inner.schedule|
  {
    hide Read, HeaderEnd, Deliveries, Stalls;
    if HeaderEnd(g.prefix).None? && |g.prefix| < c.maxHeaderBytes {
      var room := Min(c.maxHeaderBytes - |g.prefix|, CHUNK);
      var (inbound, inner) := Read(g.inner, room);
      ReadProgresses(g.inner, room);
      ReadSpendsATurn(g.inner, room);
      if inbound.Arrived? && inbound.data != [] {
        FillProgresses(c, g.(inner := inner, prefix := g.prefix + inbound.data));
      }
    }
  }

  /** One poll of a working socket: it delivers, or uses up a stall, or
      refuses, or everything was delivered before. */
  lemma PollProgresses(c: Config, stream: Bytes, g: Guard, capacities: seq<nat>, delivered: Bytes)
    requires capacities != [] && Inv(c, stream, g, delivered) && !g.rejected
    requires Enough(g.inner, |g.prefix|, capacities)
    ensures var (g', o) := Poll(c, g, capacities[0]);
            || (g'.rejected && Judge(c, stream) != Accept && o == Failed(Refused(Judge(c, stream).why)))
            || (g.validated && delivered == stream)
            || (!g'.rejected && !o.Failed? && Enough(g'.inner, |g'.prefix|, capacities[1..]))
    ensures !g.validated && Judge(c, stream) != Accept ==>
              var o := Poll(c, g, capacities[0]).1; o == Pending || (o.Failed? && o.error.Refused?)
  {
    hide Read, HeaderEnd, Deliveries, Stalls, Judge;
    PollKeepsInv(c, stream, g, capacities[0], delivered);
    if !g.validated {
      FillProgresses(c, g);
      FillTells(c, g);
      FillKeepsInv(c, stream, g);
    } else if g.prefix == [] {
      ReadProgresses(g.inner, capacities[0]);
      assert delivered + [] + g.inner.pending == delivered + g.inner.pending;
    }
  }

  lemma {:induction false} AcceptedIsDelivered(
      c: Config, stream: Bytes, g: Guard, capacities: seq<nat>, delivered: Bytes)
    requires Inv(c, stream, g, delivered) && !g.rejected && Judge(c, stream) == Accept
    requires Enough(g.inner, |g.prefix|, capacities)
    ensures delivered + Received(Run(c, g, capacities).1) == stream
    decreases |capacities|
  {
    assert capacities != [];
    hide Poll, Judge, Enough, Inv, Honest, Received;
    var (g', o) := Poll(c, g, capacities[0]);
    var os := Run(c, g', capacities[1..]).1;
    PollKeepsInv(c, stream, g, capacities[0], delivered);
    PollProgresses(c, stream, g, capacities, delivered);
    if delivered == stream {
      NothingIsLeft(c, stream, g, capacities, delivered);
    } else {
      AcceptedIsDelivered(c, stream, g', capacities[1..], delivered + Gained(o));
      ReceivedCons(o, os);
      assert (delivered + Gained(o)) + Received(os) == delivered + (Gained(o) + Received(os));
    }
  }

  lemma NothingIsLeft(c: Config, stream: Bytes, g: Guard, capacities: seq<nat>, delivered: Bytes)
    requires Inv(c, stream, g, delivered) && delivered == stream
    ensures delivered + Received(Run(c, g, capacities).1) == stream
  {
    hide Run, Received, Inv;
    var (g', os) := Run(c, g, capacities);
    RunKeepsInv(c, stream, g, capacities, delivered);
    ReceivedIsPrefix(c, stream, g', delivered + Received(os));
  }

  lemma ReceivedCons(o: Outcome, os: seq<Outcome>)
    ensures Received([o] + os) == Gained(o) + Received(os)
  {
    assert ([o] + os)[1..] == os;
  }

  /** Nothing but waiting, then the refusal, then nothing but failure. */
  ghost predicate RefusedAt(os: seq<Outcome>, i: nat, why: Refusal)
  {
    && i < |os| && os[i] == Failed(Refused(why))
    && (forall j :: 0 <= j < i ==> os[j] == Pending)
    && (forall j :: i < j < |os| ==> os[j] == Failed(AlreadyRejected))
  }

  lemma {:induction false} RefusedIsReported(c: Config, stream: Bytes, g: Guard, capacities: seq<nat>)
    returns (i: nat)
    requires Inv(c, stream, g, []) && !g.rejected && !g.validated && Judge(c, stream) != Accept
    requires Enough(g.inner, |g.prefix|, capacities)
    ensures RefusedAt(Run(c, g, capacities).1, i, Judge(c, stream).why)
    decreases |capacities|
  {
    assert capacities != [];
    var (g', o) := Poll(c, g, capacities[0]);
    var (g'', os) := Run(c, g', capacities[1..]);
    PollKeepsInv(c, stream, g, capacities[0], []);
    PollProgresses(c, stream, g, capacities, []);
    hide Poll, Judge, Enough;
    if o == Pending {
      var k := RefusedIsReported(c, stream, g', capacities[1..]);
      i := k + 1;
      assert forall j :: 0 < j < |os| + 1 ==> ([o] + os)[j] == os[j - 1];
    } else {
      i := 0;
      RunKeepsInv(c, stream, g', capacities[1..], []);
    }
  }

  /** Main result. For every upstream byte stream, every way of fragmenting,
      stalling and failing it and every sequence of reader buffer sizes, the
      bytes received are a prefix of the stream, and none at all if the stream
      is refused; the withheld prefix never outgrows the limit. */
  lemma GuardReleasesOnlyAcceptedStreams(
      c: Config, stream: Bytes, schedule: seq<Turn>, capacities: seq<nat>)
    ensures var (g, os) := Run(c, Fresh(Upstream(stream, schedule)), capacities);
            && |g.prefix| <= c.maxHeaderBytes
            && Received(os) <= stream
            && (Judge(c, stream) != Accept ==> Received(os) == [])
  {
    var g0 := Fresh(Upstream(stream, schedule));
    var (g, os) := Run(c, g0, capacities);
    assert [] + [] + stream == stream;
    RunKeepsInv(c, stream, g0, capacities, []);
    assert [] + Received(os) == Received(os);
    ReceivedIsPrefix(c, stream, g, Received(os));
  }

  /** Main result, poll by poll. End of stream is reported only after the
      whole stream was received; a refusal is the one the stream alone
      determines; after a refusal, or a transport failure on a refused stream,
      every later read fails; a poll stalls only when the schedule stalls. */
  lemma GuardIsFragmentationIndependent(
      c: Config, stream: Bytes, schedule: seq<Turn>, capacities: seq<nat>, i: nat)
    requires i < |capacities|
    ensures var (g, os) := Run(c, Fresh(Upstream(stream, schedule)), capacities);
            && (os[i] == Ready([]) && capacities[i] > 0 ==>
                  Judge(c, stream) == Accept && Received(os[..i]) == stream)
            && (os[i].Failed? && os[i].error.Refused? ==> Judge(c, stream) == Refuse(os[i].error.why))
            && (os[i] == Failed(Io) ==> Fail in schedule)
            && (os[i].Failed? && (os[i].error != Io || Judge(c, stream) != Accept) ==>
                  forall j :: i < j < |os| ==> os[j] == Failed(AlreadyRejected))
            && (os[i] == Pending ==> Stall in schedule || g.inner.schedule == [])
  {
    var g0 := Fresh(Upstream(stream, schedule));
    var (g, os) := Run(c, g0, capacities);
    var (g1, before) := Run(c, g0, capacities[..i]);
    var (g2, o) := Poll(c, g1, capacities[i]);
    RunAround(c, g0, capacities, i);
    assert os[i] == o && os[..i] == before;
    assert [] + [] + stream == stream && [] + Received(before) == Received(before);
    RunKeepsInv(c, stream, g0, capacities[..i], []);
    PollKeepsInv(c, stream, g1, capacities[i], Received(before));
    RunKeepsInv(c, stream, g2, capacities[i + 1..], Received(before) + Gained(o));
    if o == Pending && g2.inner.schedule == [] { ExhaustedStays(c, g2, capacities[i + 1..]); }
  }

  /** Main result, failures. A read finds the guard closed exactly when an
      earlier read failed before anything was released, so a stream that
      deserves acceptance on a working socket never meets a failure. */
  lemma GuardLatchesExactly(c: Config, stream: Bytes, schedule: seq<Turn>, capacities: seq<nat>, i: nat)
    requires i < |capacities|
    ensures var os := Run(c, Fresh(Upstream(stream, schedule)), capacities).1;
            && (os[i] == Failed(AlreadyRejected) <==> Latched(os[..i]))
            && (Judge(c, stream) == Accept && Fail !in schedule ==> !os[i].Failed?)
    decreases i
  {
    hide Judge, Poll, Latched, Received;
    var g0 := Fresh(Upstream(stream, schedule));
    var os := Run(c, g0, capacities).1;
    var (g1, before) := Run(c, g0, capacities[..i]);
    RunAround(c, g0, capacities, i);
    assert os[..i] == before;
    assert [] + before == before && [] + [] + stream == stream && [] + Received(before) == Received(before);
    FreshTells(g0);
    RunTells(c, g0, capacities[..i], []);
    PollTells(c, g1, capacities[i], before);
    RunKeepsInv(c, stream, g0, capacities[..i], []);
    PollKeepsInv(c, stream, g1, capacities[i], Received(before));
    if Judge(c, stream) == Accept && Fail !in schedule && Latched(before) {
      var j := LatchedAt(before);
      assert os[j] == before[j];
      GuardLatchesExactly(c, stream, schedule, capacities, j);
    }
  }

  lemma FreshTells(g: Guard)
    requires !g.rejected && !g.validated
    ensures Tells(g, [])
  {
  }

  lemma LatchedAt(history: seq<Outcome>) returns (j: nat)
    requires Latched(history)
    ensures j < |history| && history[j].Failed?
  {
    j :| 0 <= j < |history| && history[j].Failed? && !Released(history[..j]);
  }

  /** Main result, delivery. However a working socket stalls and splits the
      stream and whatever buffers the reader brings, enough reads pass an
      accepted stream on whole and without a failure, and report the one
      refusal of any other. */
  lemma GuardDelivers(c: Config, stream: Bytes, schedule: seq<Turn>, capacities: seq<nat>)
    requires Enough(Upstream(stream, schedule), 0, capacities)
    ensures var os := Run(c, Fresh(Upstream(stream, schedule)), capacities).1;
            match Judge(c, stream)
            case Accept => Received(os) == stream && forall i :: 0 <= i < |os| ==> !os[i].Failed?
            case Refuse(why) => exists i :: RefusedAt(os, i, why)
  {
    hide Judge, Run, Received, Enough;
    var g0 := Fresh(Upstream(stream, schedule));
    assert [] + [] + stream == stream;
    if Judge(c, stream) == Accept {
      var os := Run(c, g0, capacities).1;
      assert [] + Received(os) == Received(os);
      AcceptedIsDelivered(c, stream, g0, capacities, []);
      assert Fail !in schedule by { EnoughWorks(g0.inner, 0, capacities); }
      forall i | 0 <= i < |os| ensures !os[i].Failed? {
        GuardLatchesExactly(c, stream, schedule, capacities, i);
      }
    } else {
      var i := RefusedIsReported(c, stream, g0, capacities);
    }
  }

  lemma EnoughWorks(up: Upstream, buffered: nat, capacities: seq<nat>)
    requires Enough(up, buffered, capacities)
    ensures Fail !in up.schedule
  {
  }

  lemma ReceivedIsPrefix(c: Config, stream: Bytes, g: Guard, delivered: Bytes)
    requires Inv(c, stream, g, delivered)
    ensures delivered <= stream
    ensures Judge(c, stream) != Accept ==> delivered == []
  {
    if !g.rejected { assert stream == delivered + (g.prefix + g.inner.pending); }
  }

  lemma {:induction false} ExhaustedStays(c: Config, g: Guard, capacities: seq<nat>)
    requires g.inner.schedule == []
    ensures Run(c, g, capacities).0.inner.schedule == []
    decreases |capacities|
  {
    if capacities != [] {
      var (f, early) := Fill(c, g);
      assert f.inner.schedule == [];
      ExhaustedStays(c, Poll(c, g, capacities[0]).0, capacities[1..]);
    }
  }

  /** What a head must be for any of its stream to be released. */
  ghost predicate Unambiguous(parse: Bytes -> Option<ParsedHead>, allowSwitching: bool, head: Bytes)
  {
    && !HasBareLineEnding(head)
    && parse(head).Some?
    && var parsed := parse(head).value;
       && parsed.length == |head| && parsed.version == 1
       && (200 <= parsed.code <= 599 || (allowSwitching && parsed.code == 101))
       && |Values(parsed.headers, "content-length")| + |Values(parsed.headers, "transfer-encoding")| <= 1
       && (forall v :: v in Values(parsed.headers, "content-length") ==> IsContentLength(TrimAscii(v)))
       && (forall v :: v in Values(parsed.headers, "transfer-encoding") ==> EqualIgnoringCase(TrimAscii(v), "chunked"))
  }

  lemma FaultlessIsUnambiguous(parse: Bytes -> Option<ParsedHead>, allowSwitching: bool, head: Bytes)
    ensures Fault(parse, allowSwitching, head).None? <==> Unambiguous(parse, allowSwitching, head)
  {
    hide HasBareLineEnding, TrimAscii, IsContentLength, EqualIgnoringCase;
    if parse(head).Some? {
      var lengths := Values(parse(head).value.headers, "content-length");
      var encodings := Values(parse(head).value.headers, "transfer-encoding");
      assert |lengths| > 0 ==> lengths[0] in lengths;
      assert |encodings| > 0 ==> encodings[0] in encodings;
    }
  }

  /** Main result, end to end: a reader that has received anything at all is
      reading a stream whose head ends within the limit, uses only CRLF line
      endings and has an allowed status and one reading of its framing. */
  lemma ReleasedHeadsAreUnambiguous(
      maxHeaderBytes: nat, allowSwitching: bool, parse: Bytes -> Option<ParsedHead>,
      stream: Bytes, schedule: seq<Turn>, capacities: seq<nat>)
    ensures var c := Configured(maxHeaderBytes, allowSwitching, parse);
            var os := Run(c, Fresh(Upstream(stream, schedule)), capacities).1;
            Received(os) != [] ==>
              && HeaderEnd(stream).Some? && HeaderEnd(stream).value <= maxHeaderBytes
              && Unambiguous(parse, allowSwitching, stream[..HeaderEnd(stream).value])
  {
    hide Run, Received, Unambiguous, Fault, HeaderEnd;
    var c := Configured(maxHeaderBytes, allowSwitching, parse);
    GuardReleasesOnlyAcceptedStreams(c, stream, schedule, capacities);
    if Judge(c, stream) == Accept {
      FaultlessIsUnambiguous(parse, allowSwitching, stream[..HeaderEnd(stream).value]);
    }
  }
}
