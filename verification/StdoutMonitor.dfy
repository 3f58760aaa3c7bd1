/** The thread that decodes launcher stdout, validates the event sequence and
    reports to the runtime owner. */
module StdoutMonitor {
  import opened Common
  import opened ByteStream
  import opened LauncherEvents
  import Decoding = EventDecoder
  import Tracking = LifecycleTracker

  /** One read of the pipe; the end of the list is end of file. */
  datatype PipeRead = Chunk(bytes: Bytes) | ReadFailure

  datatype Message =
    | EventSeen(state: Tracking.State, event: Event)
    | ProtocolFailure(error: ProtocolError)
    | StdoutReadFailure
    | StdoutEnded(state: Tracking.State, ignored: nat)
    | StderrReadFailure

  datatype Relayed = Relayed(messages: seq<Message>, tracker: Tracking.Tracker, failed: bool)

  /** Reporting one batch of events until the tracker rejects one. */
  function Relay(p: Tracking.Policy, t: Tracking.Tracker, events: seq<Event>): Relayed
    decreases |events|
  {
    if events == [] then Relayed([], t, false)
    else
      var (t', r) := Tracking.Observe(p, t, events[0]);
      match r
      case Err(error) => Relayed([ProtocolFailure(error)], t', true)
      case Ok(state) =>
        var later := Relay(p, t', events[1..]);
        later.(messages := [EventSeen(state, events[0])] + later.messages)
  }

  function Monitor(c: Decoding.Config, p: Tracking.Policy, d: Decoding.Decoder, t: Tracking.Tracker,
                   pipe: seq<PipeRead>): seq<Message>
    decreases |pipe|
  {
    if pipe == [] then
      match Decoding.Finish(d).1
      case Err(error) => [ProtocolFailure(error)]
      case Ok(_) => [StdoutEnded(t.state, d.ignored)]
    else if pipe[0].ReadFailure? then [StdoutReadFailure]
    else
      var (d', batch) := Decoding.Push(c, d, pipe[0].bytes);
      match batch
      case Err(error) => [ProtocolFailure(error)]
      case Ok(events) =>
        var relayed := Relay(p, t, events);
        if relayed.failed then relayed.messages
        else relayed.messages + Monitor(c, p, d', relayed.tracker, pipe[1..])
  }

  /** Every message the thread sends for one lifetime of the pipe. */
  function Report(c: Decoding.Config, p: Tracking.Policy, pipe: seq<PipeRead>): seq<Message>
  {
    if p.port == 0 then [ProtocolFailure(InvalidExpectedPort)]
    else Monitor(c, p, Decoding.FRESH, Tracking.FRESH, pipe)
  }

  method MonitorStdout(c: Decoding.Config, p: Tracking.Policy, pipe: seq<PipeRead>)
    returns (sent: seq<Message>)
    ensures sent == Report(c, p, pipe)
  {
    var decoder := new Decoding.StreamDecoder(c);
    var created := Tracking.LifecycleTracker.TryNew(p);
    if created.Err? { return [ProtocolFailure(created.error)]; }
    var tracker := created.value;
    sent := PumpPipe(decoder, tracker, pipe);
  }

  method PumpPipe(decoder: Decoding.StreamDecoder, tracker: Tracking.LifecycleTracker, pipe: seq<PipeRead>)
    returns (sent: seq<Message>)
    modifies decoder, tracker
    ensures sent == Monitor(decoder.config, tracker.policy, old(decoder.State()), old(tracker.Value()), pipe)
  {
    hide Decoding.Push, Decoding.Finish, Relay, Tracking.Observe;
    ghost var c, p := decoder.config, tracker.policy;
    ghost var goal := Monitor(c, p, decoder.State(), tracker.Value(), pipe);
    sent := [];
    var i := 0;
    while i < |pipe|
      invariant 0 <= i <= |pipe|
      invariant sent + Monitor(c, p, decoder.State(), tracker.Value(), pipe[i..]) == goal
    {
      ghost var t0 := tracker.Value();
      ghost var sent0 := sent;
      assert pipe[i..][1..] == pipe[i + 1..] && pipe[i..][0] == pipe[i];
      if pipe[i].ReadFailure? { return sent + [StdoutReadFailure]; }
      var batch := decoder.PushBytes(pipe[i].bytes);
      if batch.Err? { return sent + [ProtocolFailure(batch.error)]; }
      var failed;
      sent, failed := RelayBatch(tracker, batch.value, sent);
      if failed { return; }
      ghost var rest := Monitor(c, p, decoder.State(), tracker.Value(), pipe[i + 1..]);
      assert sent0 + (Relay(p, t0, batch.value).messages + rest) == sent + rest;
      i := i + 1;
    }
    assert pipe[i..] == [];
    var state, ignored := tracker.state, decoder.ignored;
    var ended := decoder.FinishStream();
    if ended.Err? { return sent + [ProtocolFailure(ended.error)]; }
    return sent + [StdoutEnded(state, ignored)];
  }

  method RelayBatch(tracker: Tracking.LifecycleTracker, events: seq<Event>, before: seq<Message>)
    returns (sent: seq<Message>, failed: bool)
    modifies tracker
    ensures var r := Relay(tracker.policy, old(tracker.Value()), events);
            sent == before + r.messages && failed == r.failed && tracker.Value() == r.tracker
  {
    sent := before;
    ghost var goal := Relay(tracker.policy, tracker.Value(), events);
    for j := 0 to |events|
      invariant var r := Relay(tracker.policy, tracker.Value(), events[j..]);
                && sent + r.messages == before + goal.messages
                && r.failed == goal.failed && r.tracker == goal.tracker
    {
      assert events[j..][1..] == events[j + 1..] && events[j..][0] == events[j];
      ghost var sent0 := sent;
      var reply := tracker.ObserveEvent(events[j]);
      if reply.Err? { return sent + [ProtocolFailure(reply.error)], true; }
      sent := sent + [EventSeen(reply.value, events[j])];
      ghost var r := Relay(tracker.policy, tracker.Value(), events[j + 1..]);
      assert sent0 + ([EventSeen(reply.value, events[j])] + r.messages) == sent + r.messages;
    }
    failed := false;
  }

  // ---------------------------------------------------------- what it means

  /** The events reported, in order. */
  function EventsIn(messages: seq<Message>): seq<Event>
  {
    if messages == [] then []
    else (if messages[0].EventSeen? then [messages[0].event] else []) + EventsIn(messages[1..])
  }

  /** Replaying accepted events from any tracker value. */
  function TrackFrom(p: Tracking.Policy, t: Tracking.Tracker, events: seq<Event>): Option<Tracking.Tracker>
    decreases |events|
  {
    if events == [] then Some(t)
    else
      var (t', r) := Tracking.Observe(p, t, events[0]);
      if r.Ok? then TrackFrom(p, t', events[1..]) else None
  }

  lemma {:induction false} TrackFromAppend(p: Tracking.Policy, t: Tracking.Tracker, a: seq<Event>, b: seq<Event>)
    ensures TrackFrom(p, t, a + b)
         == if TrackFrom(p, t, a).Some? then TrackFrom(p, TrackFrom(p, t, a).value, b) else None
    decreases |a|
  {
    if a == [] {
      assert a + b == b;
    } else {
      assert (a + b)[1..] == a[1..] + b;
      TrackFromAppend(p, Tracking.Observe(p, t, a[0]).0, a[1..], b);
    }
  }

  lemma {:induction false} TrackFromFresh(p: Tracking.Policy, events: seq<Event>)
    ensures TrackFrom(p, Tracking.FRESH, events) == Tracking.Track(p, events)
    decreases |events|
  {
    if events != [] {
      var before := events[..|events| - 1];
      TrackFromFresh(p, before);
      TrackFromAppend(p, Tracking.FRESH, before, [events[|events| - 1]]);
      assert events == before + [events[|events| - 1]];
    }
  }

  lemma {:induction false} EventsInAppend(a: seq<Message>, b: seq<Message>)
    ensures EventsIn(a + b) == EventsIn(a) + EventsIn(b)
  {
    if a == [] {
      assert a + b == b && [] + EventsIn(b) == EventsIn(b);
    } else {
      assert (a + b)[1..] == a[1..] + b && (a + b)[0] == a[0];
      EventsInAppend(a[1..], b);
      var head := if a[0].EventSeen? then [a[0].event] else [];
      assert head + (EventsIn(a[1..]) + EventsIn(b)) == head + EventsIn(a[1..]) + EventsIn(b);
    }
  }

  /** Messages whose reported states are those of the tracker that produced
      them, ending with tracker value `end`. */
  ghost predicate Faithful(p: Tracking.Policy, t: Tracking.Tracker, messages: seq<Message>)
    decreases |messages|
  {
    messages != [] ==>
      match messages[0]
      case EventSeen(state, event) =>
        var (t', r) := Tracking.Observe(p, t, event);
        r == Ok(state) && t'.state == state && Faithful(p, t', messages[1..])
      case StdoutEnded(state, _) => state == t.state && |messages| == 1
      case _ => |messages| == 1
  }

  lemma ObserveReportsState(p: Tracking.Policy, t: Tracking.Tracker, e: Event)
    requires Tracking.Observe(p, t, e).1.Ok?
    ensures Tracking.Observe(p, t, e).1.value == Tracking.Observe(p, t, e).0.state
  {
  }

  lemma {:induction false} RelayIsFaithful(
      p: Tracking.Policy, t: Tracking.Tracker, events: seq<Event>, later: seq<Message>)
    ensures var r := Relay(p, t, events);
            && (r.failed ==> Faithful(p, t, r.messages))
            && (!r.failed && Faithful(p, r.tracker, later) ==> Faithful(p, t, r.messages + later))
            && (!r.failed ==> EventsIn(r.messages) == events)
    decreases |events|
  {
    if events == [] {
      assert [] + later == later;
    } else {
      var (t', reply) := Tracking.Observe(p, t, events[0]);
      if reply.Ok? {
        ObserveReportsState(p, t, events[0]);
        RelayIsFaithful(p, t', events[1..], later);
        var m := EventSeen(reply.value, events[0]);
        var rest := Relay(p, t', events[1..]).messages;
        assert ([m] + rest)[1..] == rest && ([m] + rest + later)[1..] == rest + later;
        assert [events[0]] + events[1..] == events;
      }
    }
  }

  lemma {:induction false} MonitorIsFaithful(
      c: Decoding.Config, p: Tracking.Policy, d: Decoding.Decoder, t: Tracking.Tracker, pipe: seq<PipeRead>)
    ensures Faithful(p, t, Monitor(c, p, d, t, pipe))
    decreases |pipe|
  {
    if pipe != [] && pipe[0].Chunk? {
      var (d', batch) := Decoding.Push(c, d, pipe[0].bytes);
      if batch.Ok? {
        var relayed := Relay(p, t, batch.value);
        var later := Monitor(c, p, d', relayed.tracker, pipe[1..]);
        MonitorIsFaithful(c, p, d', relayed.tracker, pipe[1..]);
        RelayIsFaithful(p, t, batch.value, later);
      }
    }
  }

  lemma ReportIsFaithful(c: Decoding.Config, p: Tracking.Policy, pipe: seq<PipeRead>)
    ensures Faithful(p, Tracking.FRESH, Report(c, p, pipe))
  {
    MonitorIsFaithful(c, p, Decoding.FRESH, Tracking.FRESH, pipe);
  }

  lemma {:induction false} FaithfulEventsAreAccepted(
      p: Tracking.Policy, t: Tracking.Tracker, messages: seq<Message>, i: nat)
    requires Faithful(p, t, messages) && i <= |messages|
    ensures var r := TrackFrom(p, t, EventsIn(messages[..i]));
            && r.Some?
            && (i > 0 && messages[i - 1].EventSeen? ==> r.value.state == messages[i - 1].state)
            && (i > 0 && messages[i - 1].StdoutEnded? ==> r.value.state == messages[i - 1].state)
    decreases |messages|
  {
    if i > 0 {
      assert messages[..i][1..] == messages[1..][..i - 1] && messages[..i][0] == messages[0];
      if messages[0].EventSeen? {
        var (t', _) := Tracking.Observe(p, t, messages[0].event);
        FaithfulEventsAreAccepted(p, t', messages[1..], i - 1);
        var tail := EventsIn(messages[1..][..i - 1]);
        assert ([messages[0].event] + tail)[1..] == tail;
        if i == 1 { assert tail == []; }
      } else {
        assert messages[..i] == [messages[0]];
        assert EventsIn(messages[..i][1..]) == [];
      }
    }
  }

  /** Main result on reports. After every message of every report the events
      seen so far are accepted, and the state a message carries is the
      tracker's; a report that mentions Halted has seen a whole session. */
  lemma ReportedStatesAreTrue(c: Decoding.Config, p: Tracking.Policy, pipe: seq<PipeRead>, i: nat)
    requires 0 < i <= |Report(c, p, pipe)|
    ensures var seen := Report(c, p, pipe)[..i];
            var last := seen[i - 1];
            var events := EventsIn(seen);
            && Tracking.Track(p, events).Some?
            && Tracking.InLanguage(p, events)
            && (last.EventSeen? || last.StdoutEnded? ==>
                  && last.state == Tracking.Track(p, events).value.state
                  && (last.state == Tracking.Halted <==> exists pid :: Tracking.Completed(p, events, pid)))
  {
    ReportIsFaithful(c, p, pipe);
    FaithfulEventsAreAccepted(p, Tracking.FRESH, Report(c, p, pipe), i);
    var events := EventsIn(Report(c, p, pipe)[..i]);
    TrackFromFresh(p, events);
    Tracking.TrackerLanguage(p, events);
    Tracking.HaltedMeansCompleted(p, events);
  }

  // ------------------------------------------------------ a clean ending

  function Stream(pipe: seq<PipeRead>): Bytes
  {
    if pipe == [] then [] else (if pipe[0].Chunk? then pipe[0].bytes else []) + Stream(pipe[1..])
  }

  function Chunks(pipe: seq<PipeRead>): seq<Bytes>
  {
    if pipe == [] then [] else (if pipe[0].Chunk? then [pipe[0].bytes] else []) + Chunks(pipe[1..])
  }

  lemma {:induction false} ChunksJoin(pipe: seq<PipeRead>)
    ensures Decoding.Joined(Chunks(pipe)) == Stream(pipe)
  {
    if pipe != [] {
      ChunksJoin(pipe[1..]);
      var rest := Chunks(pipe[1..]);
      if pipe[0].Chunk? { assert ([pipe[0].bytes] + rest)[1..] == rest; } else { assert [] + rest == rest; }
    }
  }

  ghost predicate DecodesEverything(
      c: Decoding.Config, d: Decoding.Decoder, pipe: seq<PipeRead>, m: seq<Message>)
  {
    var (d', batches) := Decoding.PushAll(c, d, Chunks(pipe));
    && m != [] && m[|m| - 1].StdoutEnded?
    && Decoding.AllOk(batches)
    && EventsIn(m) == Decoding.Yielded(batches)
    && Decoding.Finish(d').1.Ok?
    && m[|m| - 1].ignored == d'.ignored
  }

  lemma DecodesOneMore(
      c: Decoding.Config, d: Decoding.Decoder, pipe: seq<PipeRead>, now: seq<Message>, later: seq<Message>)
    requires pipe != [] && pipe[0].Chunk? && later != []
    requires Decoding.Push(c, d, pipe[0].bytes).1.Ok?
    requires EventsIn(now) == Decoding.Push(c, d, pipe[0].bytes).1.value
    requires DecodesEverything(c, Decoding.Push(c, d, pipe[0].bytes).0, pipe[1..], later)
    ensures DecodesEverything(c, d, pipe, now + later)
  {
    hide Decoding.Push, EventsIn, Decoding.Finish;
    var (d1, batch) := Decoding.Push(c, d, pipe[0].bytes);
    var rest := Chunks(pipe[1..]);
    var chunks := [pipe[0].bytes] + rest;
    assert Chunks(pipe) == chunks && chunks[0] == pipe[0].bytes && chunks[1..] == rest;
    var bs := Decoding.PushAll(c, d1, rest).1;
    assert Decoding.PushAll(c, d, chunks).1 == [batch] + bs;
    assert ([batch] + bs)[1..] == bs;
    assert Decoding.AllOk([batch] + bs);
    EventsInAppend(now, later);
    assert (now + later)[|now + later| - 1] == later[|later| - 1];
  }

  lemma {:induction false} CleanEndDecodesEverything(
      c: Decoding.Config, p: Tracking.Policy, d: Decoding.Decoder, t: Tracking.Tracker, pipe: seq<PipeRead>)
    requires !d.poisoned && |d.buffer| <= c.maxLineBytes
    requires var m := Monitor(c, p, d, t, pipe); m != [] && m[|m| - 1].StdoutEnded?
    ensures DecodesEverything(c, d, pipe, Monitor(c, p, d, t, pipe))
    decreases |pipe|
  {
    hide Decoding.Push, DecodesEverything, Relay;
    if pipe == [] {
      EmptyDecodes(c, p, d, t);
    } else if pipe[0].Chunk? {
      var (d1, batch) := Decoding.Push(c, d, pipe[0].bytes);
      PushBounds(c, d, pipe[0].bytes);
      if batch.Ok? {
        var relayed := Relay(p, t, batch.value);
        RelayEndsWithEvents(p, t, batch.value);
        var later := Monitor(c, p, d1, relayed.tracker, pipe[1..]);
        MonitorSays(c, p, d1, relayed.tracker, pipe[1..]);
        RelayIsFaithful(p, t, batch.value, later);
        assert (relayed.messages + later)[|relayed.messages + later| - 1] == later[|later| - 1];
        CleanEndDecodesEverything(c, p, d1, relayed.tracker, pipe[1..]);
        DecodesOneMore(c, d, pipe, relayed.messages, later);
      }
    }
  }

  lemma PushBounds(c: Decoding.Config, d: Decoding.Decoder, bytes: Bytes)
    requires |d.buffer| <= c.maxLineBytes && !d.poisoned
    ensures var (d', r) := Decoding.Push(c, d, bytes);
            |d'.buffer| <= c.maxLineBytes && (d'.poisoned <==> r.Err?)
  {
    Decoding.FeedBounds(c, d, bytes, []);
  }

  lemma EmptyDecodes(c: Decoding.Config, p: Tracking.Policy, d: Decoding.Decoder, t: Tracking.Tracker)
    requires var m := Monitor(c, p, d, t, []); m != [] && m[|m| - 1].StdoutEnded?
    ensures DecodesEverything(c, d, [], Monitor(c, p, d, t, []))
  {
    var m := Monitor(c, p, d, t, []);
    assert Chunks([]) == [] && EventsIn(m[1..]) == [] && EventsIn(m) == [];
  }

  lemma {:induction false} RelayEndsWithEvents(p: Tracking.Policy, t: Tracking.Tracker, events: seq<Event>)
    ensures var m := Relay(p, t, events).messages; m != [] ==> !m[|m| - 1].StdoutEnded?
    decreases |events|
  {
    if events != [] { RelayEndsWithEvents(p, Tracking.Observe(p, t, events[0]).0, events[1..]); }
  }

  lemma {:induction false} MonitorSays(
      c: Decoding.Config, p: Tracking.Policy, d: Decoding.Decoder, t: Tracking.Tracker, pipe: seq<PipeRead>)
    ensures Monitor(c, p, d, t, pipe) != []
    decreases |pipe|
  {
    if pipe != [] && pipe[0].Chunk? {
      var (d', batch) := Decoding.Push(c, d, pipe[0].bytes);
      if batch.Ok? {
        var relayed := Relay(p, t, batch.value);
        if relayed.failed { RelayFailureSays(p, t, batch.value); }
        else { MonitorSays(c, p, d', relayed.tracker, pipe[1..]); }
      }
    }
  }

  lemma {:induction false} RelayFailureSays(p: Tracking.Policy, t: Tracking.Tracker, events: seq<Event>)
    requires Relay(p, t, events).failed
    ensures Relay(p, t, events).messages != []
  {
  }

  /** Main result on endings. If the report ends with StdoutEnded then the
      whole pipe was one stream of complete, bounded, decodable lines, the
      events reported are exactly those lines' events, and the final state is
      the tracker's verdict on them. */
  lemma CleanEndMeansCleanStream(c: Decoding.Config, p: Tracking.Policy, pipe: seq<PipeRead>)
    requires var m := Report(c, p, pipe); m != [] && m[|m| - 1].StdoutEnded?
    ensures var m := Report(c, p, pipe);
            var stream := Stream(pipe);
            && Decoding.ReadLines(c, Decoding.Lines(stream, []), []) == Ok(EventsIn(m))
            && (stream == [] || stream[|stream| - 1] == Decoding.NEWLINE)
            && m[|m| - 1].ignored == Min(Decoding.Noise(c, Decoding.Lines(stream, [])), U64_MAX)
            && Tracking.Track(p, EventsIn(m)).Some?
            && m[|m| - 1].state == Tracking.Track(p, EventsIn(m)).value.state
  {
    hide Monitor, EventsIn, Stream, Chunks, Tracking.Track, Decoding.ReadLines, Decoding.Lines, Decoding.Feed,
      Decoding.Noise, Decoding.PushAll, Decoding.Yielded, Decoding.Unterminated, Tracking.InLanguage,
      Tracking.Completed;
    var m := Report(c, p, pipe);
    assert p.port != 0;
    CleanEndDecodesEverything(c, p, Decoding.FRESH, Tracking.FRESH, pipe);
    Decoding.ChunkingIsInvisible(c, Decoding.FRESH, Chunks(pipe));
    ChunksJoin(pipe);
    Decoding.FeedReadsLines(c, Decoding.FRESH, Stream(pipe));
    Decoding.FinishMeansWholeLines(c, Stream(pipe));
    ReportedStatesAreTrue(c, p, pipe, |m|);
    assert m[..|m|] == m;
  }

  // ------------------------------------------------- the other direction

  lemma {:induction false} RelayTracks(p: Tracking.Policy, t: Tracking.Tracker, events: seq<Event>)
    requires TrackFrom(p, t, events).Some?
    ensures !Relay(p, t, events).failed && Relay(p, t, events).tracker == TrackFrom(p, t, events).value
    decreases |events|
  {
    if events != [] { RelayTracks(p, Tracking.Observe(p, t, events[0]).0, events[1..]); }
  }

  lemma {:induction false} AcceptedPipeEndsCleanly(
      c: Decoding.Config, p: Tracking.Policy, d: Decoding.Decoder, t: Tracking.Tracker, pipe: seq<PipeRead>)
    requires ReadFailure !in pipe
    requires var (d', batches) := Decoding.PushAll(c, d, Chunks(pipe));
             && Decoding.AllOk(batches) && Decoding.Finish(d').1.Ok?
             && TrackFrom(p, t, Decoding.Yielded(batches)).Some?
    ensures var m := Monitor(c, p, d, t, pipe); m != [] && m[|m| - 1].StdoutEnded?
    decreases |pipe|
  {
    hide Decoding.Push, Decoding.Finish, Relay, TrackFrom;
    if pipe != [] {
      assert pipe[0] in pipe && pipe[0].Chunk?;
      var (d1, batch) := Decoding.Push(c, d, pipe[0].bytes);
      var rest := Chunks(pipe[1..]);
      var chunks := [pipe[0].bytes] + rest;
      assert Chunks(pipe) == chunks && chunks[0] == pipe[0].bytes && chunks[1..] == rest;
      var bs := Decoding.PushAll(c, d1, rest).1;
      var batches := [batch] + bs;
      assert batches[0] == batch && batches[1..] == bs && forall i :: 0 <= i < |bs| ==> bs[i] == batches[i + 1];
      TrackFromAppend(p, t, batch.value, Decoding.Yielded(bs));
      RelayTracks(p, t, batch.value);
      var relayed := Relay(p, t, batch.value);
      AcceptedPipeEndsCleanly(c, p, d1, relayed.tracker, pipe[1..]);
      var later := Monitor(c, p, d1, relayed.tracker, pipe[1..]);
      assert (relayed.messages + later)[|relayed.messages + later| - 1] == later[|later| - 1];
    }
  }

  lemma {:induction false} CleanEndReadEverything(
      c: Decoding.Config, p: Tracking.Policy, d: Decoding.Decoder, t: Tracking.Tracker, pipe: seq<PipeRead>)
    requires var m := Monitor(c, p, d, t, pipe); m != [] && m[|m| - 1].StdoutEnded?
    ensures ReadFailure !in pipe
    decreases |pipe|
  {
    if pipe != [] && pipe[0].Chunk? {
      var (d1, batch) := Decoding.Push(c, d, pipe[0].bytes);
      if batch.Ok? {
        var relayed := Relay(p, t, batch.value);
        RelayEndsWithEvents(p, t, batch.value);
        if !relayed.failed {
          var later := Monitor(c, p, d1, relayed.tracker, pipe[1..]);
          MonitorSays(c, p, d1, relayed.tracker, pipe[1..]);
          assert (relayed.messages + later)[|relayed.messages + later| - 1] == later[|later| - 1];
          CleanEndReadEverything(c, p, d1, relayed.tracker, pipe[1..]);
        }
      }
    }
  }

  /** Every read succeeded, the bytes are whole, bounded, decodable lines, and
      their events in order are accepted: a property of the pipe alone. */
  ghost predicate CleanPipe(c: Decoding.Config, p: Tracking.Policy, pipe: seq<PipeRead>)
  {
    var stream := Stream(pipe);
    var read := Decoding.ReadLines(c, Decoding.Lines(stream, []), []);
    && p.port != 0 && ReadFailure !in pipe
    && (stream == [] || stream[|stream| - 1] == Decoding.NEWLINE)
    && read.Ok? && Tracking.Track(p, read.value).Some?
  }

  lemma CleanPipeEndsCleanly(c: Decoding.Config, p: Tracking.Policy, pipe: seq<PipeRead>)
    requires CleanPipe(c, p, pipe)
    ensures var m := Report(c, p, pipe); m != [] && m[|m| - 1].StdoutEnded?
  {
    hide Monitor, Stream, Chunks, Tracking.Track, Decoding.ReadLines, Decoding.Lines, Decoding.Feed,
      Decoding.PushAll, Decoding.Yielded, Decoding.Unterminated, TrackFrom;
    var stream := Stream(pipe);
    Decoding.TailIsEmptyAtNewline(stream, []);
    Decoding.FeedReadsLines(c, Decoding.FRESH, stream);
    Decoding.FinishMeansWholeLines(c, stream);
    ChunksJoin(pipe);
    Decoding.ChunkingIsInvisible(c, Decoding.FRESH, Chunks(pipe));
    TrackFromFresh(p, Decoding.Yielded(Decoding.PushAll(c, Decoding.FRESH, Chunks(pipe)).1));
    AcceptedPipeEndsCleanly(c, p, Decoding.FRESH, Tracking.FRESH, pipe);
  }

  /** Main result on endings, both directions: the thread signs off with
      StdoutEnded exactly when the pipe was clean. */
  lemma CleanEndIsExact(c: Decoding.Config, p: Tracking.Policy, pipe: seq<PipeRead>)
    ensures var m := Report(c, p, pipe);
            && m != []
            && (m[|m| - 1].StdoutEnded? <==> CleanPipe(c, p, pipe))
  {
    hide Monitor, EventsIn, Stream, Tracking.Track, Decoding.ReadLines, Decoding.Lines;
    var m := Report(c, p, pipe);
    if p.port != 0 { MonitorSays(c, p, Decoding.FRESH, Tracking.FRESH, pipe); }
    if m[|m| - 1].StdoutEnded? {
      CleanEndMeansCleanStream(c, p, pipe);
      CleanEndReadEverything(c, p, Decoding.FRESH, Tracking.FRESH, pipe);
    }
    if CleanPipe(c, p, pipe) { CleanPipeEndsCleanly(c, p, pipe); }
  }
}
