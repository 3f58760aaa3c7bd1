/** Reading a bounded request head off a client socket for admission, then
    replaying it so that the HTTP library sees the very same stream. */
module RequestReplay {
  import opened Common
  import opened ByteStream
  import opened ResponseHead
  import ResponseGuard

  datatype PrefixError = HeadTooLong | HeadTruncated | Io | TimedOut

  datatype Prefix = Prefix(bytes: Bytes, socket: Upstream)

  /** An awaited read waits out stalls; a schedule that ends in stalls is a
      client that never completes its head, which the header timeout ends. */
  function Collect(socket: Upstream, bytes: Bytes, limit: nat): Result<Prefix, PrefixError>
    decreases |socket.schedule|
  {
    if HeaderEnd(bytes).Some? then Ok(Prefix(bytes, socket))
    else if |bytes| >= limit then Err(HeadTooLong)
    else if socket.schedule == [] then Err(TimedOut)
    else
      var (inbound, socket') := Read(socket, Min(limit - |bytes|, ResponseGuard.CHUNK));
      match inbound
      case Waiting => Collect(socket', bytes, limit)
      case Broken => Err(Io)
      case Arrived(data) => if data == [] then Err(HeadTruncated) else Collect(socket', bytes + data, limit)
  }

  method ReadRequestPrefix(socket: Upstream, limit: nat) returns (r: Result<Prefix, PrefixError>)
    ensures r == Collect(socket, [], limit)
  {
    var bytes: Bytes := [];
    var s := socket;
    while true
      invariant Collect(s, bytes, limit) == Collect(socket, [], limit)
      decreases |s.schedule|
    {
      if HeaderEnd(bytes).Some? { return Ok(Prefix(bytes, s)); }
      if |bytes| >= limit { return Err(HeadTooLong); }
      if |s.schedule| == 0 { return Err(TimedOut); }
      var (inbound, s') := Read(s, Min(limit - |bytes|, ResponseGuard.CHUNK));
      s := s';
      match inbound {
        case Waiting =>
        case Broken => return Err(Io);
        case Arrived(data) =>
          if |data| == 0 { return Err(HeadTruncated); }
          bytes := bytes + data;
      }
    }
  }

  class ReplayIo {
    var prefix: Bytes
    var inner: Upstream

    constructor (prefix: Bytes, inner: Upstream)
      ensures this.prefix == prefix && this.inner == inner
    {
      this.prefix, this.inner := prefix, inner;
    }

    method PollRead(capacity: nat) returns (outcome: ResponseGuard.Outcome)
      modifies this
      ensures (inner, prefix, outcome) == ResponseGuard.Drain(old(inner), old(prefix), capacity)
    {
      if |prefix| > 0 {
        var count := Min(|prefix|, capacity);
        outcome := ResponseGuard.Ready(prefix[..count]);
        prefix := prefix[count..];
        return;
      }
      var (inbound, inner') := Read(inner, capacity);
      inner := inner';
      match inbound {
        case Waiting => return ResponseGuard.Pending;
        case Broken => return ResponseGuard.Failed(ResponseGuard.Io);
        case Arrived(data) => return ResponseGuard.Ready(data);
      }
    }
  }

  function Replay(inner: Upstream, prefix: Bytes, capacities: seq<nat>): (os: seq<ResponseGuard.Outcome>)
    ensures |os| == |capacities|
    decreases |capacities|
  {
    if capacities == [] then []
    else
      var (inner', prefix', o) := ResponseGuard.Drain(inner, prefix, capacities[0]);
      [o] + Replay(inner', prefix', capacities[1..])
  }

  /** What the outcome of collecting says about the whole client stream; the
      header timeout strikes only a client that reads fewer times than it has
      bytes left to send. */
  ghost predicate Explains(
      r: Result<Prefix, PrefixError>, stream: Bytes, limit: nat, schedule: seq<Turn>, available: nat)
  {
    match r
    case Ok(p) =>
      && p.bytes + p.socket.pending == stream
      && |p.bytes| <= limit
      && HeaderEnd(stream) == HeaderEnd(p.bytes)
      && HeaderEnd(stream).Some?
    case Err(HeadTooLong) =>
      |stream| >= limit && (HeaderEnd(stream).Some? ==> HeaderEnd(stream).value > limit)
    case Err(HeadTruncated) => HeaderEnd(stream).None? && |stream| < limit
    case Err(Io) => Fail in schedule
    case Err(TimedOut) => Deliveries(schedule) <= available
  }

  /** Which streams are collected does not depend on their fragmentation. */
  lemma {:induction false} CollectExplains(socket: Upstream, bytes: Bytes, limit: nat, stream: Bytes)
    requires |bytes| <= limit && stream == bytes + socket.pending
    ensures Explains(Collect(socket, bytes, limit), stream, limit, socket.schedule, |socket.pending|)
    decreases |socket.schedule|
  {
    hide HeaderEnd, Read;
    HeaderEndIsStable(bytes, socket.pending);
    if HeaderEnd(bytes).None? && |bytes| < limit && socket.schedule != [] {
      var room := Min(limit - |bytes|, ResponseGuard.CHUNK);
      var (inbound, socket') := Read(socket, room);
      ReadTakesInOrder(socket, room);
      ReadSpendsATurn(socket, room);
      ReadIsCounted(socket, room);
      if inbound.Waiting? {
        CollectExplains(socket', bytes, limit, stream);
      } else if inbound.Arrived? && inbound.data != [] {
        assert stream == (bytes + inbound.data) + socket'.pending;
        CollectExplains(socket', bytes + inbound.data, limit, stream);
      } else if inbound.Arrived? {
        assert stream == bytes;
      }
    }
  }

  lemma DrainStep(inner: Upstream, prefix: Bytes, capacity: nat)
    ensures var (inner', prefix', o) := ResponseGuard.Drain(inner, prefix, capacity);
            && prefix + inner.pending == ResponseGuard.Gained(o) + (prefix' + inner'.pending)
            && (o == ResponseGuard.Ready([]) && capacity > 0 ==> prefix + inner.pending == [])
  {
    var (inner', prefix', o) := ResponseGuard.Drain(inner, prefix, capacity);
    if prefix == [] {
      ReadTakesInOrder(inner, capacity);
    } else {
      assert prefix == ResponseGuard.Gained(o) + prefix';
    }
  }

  lemma {:induction false} ReplayIsPrefix(inner: Upstream, prefix: Bytes, capacities: seq<nat>)
    ensures ResponseGuard.Received(Replay(inner, prefix, capacities)) <= prefix + inner.pending
    decreases |capacities|
  {
    if capacities != [] {
      var (inner', prefix', o) := ResponseGuard.Drain(inner, prefix, capacities[0]);
      var later := Replay(inner', prefix', capacities[1..]);
      DrainStep(inner, prefix, capacities[0]);
      ReplayIsPrefix(inner', prefix', capacities[1..]);
      assert ([o] + later)[1..] == later;
    }
  }

  lemma {:induction false} ReplayEndsComplete(inner: Upstream, prefix: Bytes, capacities: seq<nat>, i: nat)
    requires i < |capacities| && capacities[i] > 0
    requires Replay(inner, prefix, capacities)[i] == ResponseGuard.Ready([])
    ensures ResponseGuard.Received(Replay(inner, prefix, capacities)[..i]) == prefix + inner.pending
    decreases |capacities|
  {
    var (inner', prefix', o) := ResponseGuard.Drain(inner, prefix, capacities[0]);
    var later := Replay(inner', prefix', capacities[1..]);
    DrainStep(inner, prefix, capacities[0]);
    if i > 0 {
      ReplayEndsComplete(inner', prefix', capacities[1..], i - 1);
      assert ([o] + later)[..i] == [o] + later[..i - 1];
      assert ([o] + later[..i - 1])[1..] == later[..i - 1];
    }
  }

  /** A working socket, read often enough, is replayed whole. */
  lemma {:induction false} ReplayDelivers(inner: Upstream, prefix: Bytes, capacities: seq<nat>)
    requires Enough(inner, |prefix|, capacities)
    ensures ResponseGuard.Received(Replay(inner, prefix, capacities)) == prefix + inner.pending
    decreases |capacities|
  {
    assert capacities != [];
    var (inner', prefix', o) := ResponseGuard.Drain(inner, prefix, capacities[0]);
    var later := Replay(inner', prefix', capacities[1..]);
    DrainStep(inner, prefix, capacities[0]);
    if prefix + inner.pending == [] {
      ReplayIsPrefix(inner, prefix, capacities);
    } else {
      if prefix == [] { ReadProgresses(inner, capacities[0]); }
      ReplayDelivers(inner', prefix', capacities[1..]);
      ResponseGuard.ReceivedCons(o, later);
    }
  }

  /** Main result. Whatever head passes to admission is the head of the stream
      the HTTP library then reads: collecting it loses, adds and reorders
      nothing, however the client fragments its bytes. */
  lemma AdmittedPrefixIsReplayed(socket: Upstream, limit: nat, capacities: seq<nat>, i: nat)
    requires Collect(socket, [], limit).Ok? && i < |capacities|
    ensures var p := Collect(socket, [], limit).value;
            var os := Replay(p.socket, p.bytes, capacities);
            && HeaderEnd(socket.pending) == HeaderEnd(p.bytes)
            && HeaderEnd(p.bytes).Some?
            && p.bytes[..HeaderEnd(p.bytes).value] == socket.pending[..HeaderEnd(p.bytes).value]
            && HeaderEnd(p.bytes).value <= limit
            && ResponseGuard.Received(os) <= socket.pending
            && (os[i] == ResponseGuard.Ready([]) && capacities[i] > 0 ==>
                  ResponseGuard.Received(os[..i]) == socket.pending)
            && (Enough(p.socket, |p.bytes|, capacities) ==> ResponseGuard.Received(os) == socket.pending)
  {
    hide Collect, Enough, Replay, HeaderEnd, ResponseGuard.Received;
    var p := Collect(socket, [], limit).value;
    assert [] + socket.pending == socket.pending;
    CollectExplains(socket, [], limit, socket.pending);
    ReplayIsPrefix(p.socket, p.bytes, capacities);
    if Replay(p.socket, p.bytes, capacities)[i] == ResponseGuard.Ready([]) && capacities[i] > 0 {
      ReplayEndsComplete(p.socket, p.bytes, capacities, i);
    }
    if Enough(p.socket, |p.bytes|, capacities) { ReplayDelivers(p.socket, p.bytes, capacities); }
  }
}
