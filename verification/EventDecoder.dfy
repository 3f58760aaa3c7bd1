/** The streaming, bounded, poisoning line decoder of launcher stdout. */
module EventDecoder {
  import opened Common
  import opened ByteStream
  import opened LauncherEvents

  const NEWLINE: Byte := 0x0A
  const CARRIAGE_RETURN: Byte := 0x0D
  /** "RPACKIT_EVENT " */
  const EVENT_PREFIX: Bytes :=
    [0x52, 0x50, 0x41, 0x43, 0x4B, 0x49, 0x54, 0x5F, 0x45, 0x56, 0x45, 0x4E, 0x54, 0x20]
  const DEFAULT_MAX_LINE_BYTES: nat := 16 * 1024

  type LineMeaning = Result<Option<Event>, ProtocolError>

  /** One complete line; `parse` stands for strict JSON deserialization. */
  function DecodeLine(parse: Bytes -> Option<RawEvent>, line: Bytes): LineMeaning
  {
    var text := if line != [] && line[|line| - 1] == CARRIAGE_RETURN then line[..|line| - 1] else line;
    if !(EVENT_PREFIX <= text) then Ok(None)
    else
      var json := text[|EVENT_PREFIX|..];
      if json == [] then Err(InvalidJson)
      else match parse(json)
        case None => Err(InvalidJson)
        case Some(raw) =>
          match ParseEvent(raw)
          case Ok(event) => Ok(Some(event))
          case Err(error) => Err(error)
  }

  datatype Config = Config(maxLineBytes: nat, decode: Bytes -> LineMeaning)

  function Configured(maxLineBytes: nat, parse: Bytes -> Option<RawEvent>): Config
  {
    Config(maxLineBytes, line => DecodeLine(parse, line))
  }

  datatype Decoder = Decoder(buffer: Bytes, poisoned: bool, ignored: nat)

  const FRESH: Decoder := Decoder([], false, 0)

  type Batch = Result<seq<Event>, ProtocolError>

  function Counted(ignored: nat): nat { Min(ignored + 1, U64_MAX) }

  /** The byte loop of one push, with the events it has collected so far. */
  function Feed(c: Config, d: Decoder, bytes: Bytes, events: seq<Event>): (Decoder, Batch)
    decreases |bytes|
  {
    if bytes == [] then (d, Ok(events))
    else if bytes[0] == NEWLINE then
      (match c.decode(d.buffer)
       case Ok(Some(event)) => Feed(c, d.(buffer := []), bytes[1..], events + [event])
       case Ok(None) => Feed(c, d.(buffer := [], ignored := Counted(d.ignored)), bytes[1..], events)
       case Err(error) => (d.(buffer := [], poisoned := true), Err(error)))
    else if |d.buffer| >= c.maxLineBytes then (d.(buffer := [], poisoned := true), Err(LineTooLong))
    else Feed(c, d.(buffer := d.buffer + [bytes[0]]), bytes[1..], events)
  }

  function Push(c: Config, d: Decoder, bytes: Bytes): (Decoder, Batch)
  {
    if d.poisoned then (d, Err(DecoderPoisoned)) else Feed(c, d, bytes, [])
  }

  function Finish(d: Decoder): (Decoder, Result<(), ProtocolError>)
  {
    if d.poisoned then (d, Err(DecoderPoisoned))
    else if d.buffer != [] then (d.(buffer := [], poisoned := true), Err(TruncatedLine))
    else (d, Ok(()))
  }

  class StreamDecoder {
    const config: Config
    var buffer: Bytes
    var poisoned: bool
    var ignored: nat

    ghost function State(): Decoder
      reads this
    {
      Decoder(buffer, poisoned, ignored)
    }

    /** A zero bound would reject every useful line. */
    static method TryNew(config: Config) returns (r: Result<StreamDecoder, ProtocolError>)
      ensures config.maxLineBytes == 0 ==> r == Err(ZeroLineLimit)
      ensures config.maxLineBytes > 0 ==>
                r.Ok? && fresh(r.value) && r.value.State() == FRESH && r.value.config == config
    {
      if config.maxLineBytes == 0 { return Err(ZeroLineLimit); }
      var decoder := new StreamDecoder(config);
      return Ok(decoder);
    }

    constructor (config: Config)
      ensures State() == FRESH && this.config == config
    {
      this.config := config;
      buffer, poisoned, ignored := [], false, 0;
    }

    method PushBytes(bytes: Bytes) returns (r: Batch)
      modifies this
      ensures (State(), r) == Push(config, old(State()), bytes)
    {
      if poisoned { return Err(DecoderPoisoned); }
      var events := [];
      for i := 0 to |bytes|
        invariant Feed(config, State(), bytes[i..], events) == Feed(config, old(State()), bytes, [])
        invariant !old(poisoned)
      {
        assert bytes[i..][1..] == bytes[i + 1..];
        if bytes[i] == NEWLINE {
          var line := buffer;
          buffer := [];
          var meaning := config.decode(line);
          match meaning {
            case Ok(Some(event)) => events := events + [event];
            case Ok(None) => ignored := Counted(ignored);
            case Err(error) =>
              poisoned := true;
              return Err(error);
          }
        } else {
          if |buffer| >= config.maxLineBytes {
            buffer, poisoned := [], true;
            return Err(LineTooLong);
          }
          buffer := buffer + [bytes[i]];
        }
      }
      return Ok(events);
    }

    method FinishStream() returns (r: Result<(), ProtocolError>)
      modifies this
      ensures (State(), r) == Finish(old(State()))
    {
      if poisoned { return Err(DecoderPoisoned); }
      if |buffer| > 0 {
        buffer, poisoned := [], true;
        return Err(TruncatedLine);
      }
      return Ok(());
    }
  }

  // --------------------------------------------------- chunks do not matter

  function PushAll(c: Config, d: Decoder, chunks: seq<Bytes>): (r: (Decoder, seq<Batch>))
    ensures |r.1| == |chunks|
    decreases |chunks|
  {
    if chunks == [] then (d, [])
    else
      var (d', b) := Push(c, d, chunks[0]);
      var (d'', bs) := PushAll(c, d', chunks[1..]);
      (d'', [b] + bs)
  }

  function Joined(chunks: seq<Bytes>): Bytes
  {
    if chunks == [] then [] else chunks[0] + Joined(chunks[1..])
  }

  function Yielded(batches: seq<Batch>): seq<Event>
  {
    if batches == [] then []
    else (if batches[0].Ok? then batches[0].value else []) + Yielded(batches[1..])
  }

  ghost predicate AllOk(batches: seq<Batch>) { forall i :: 0 <= i < |batches| ==> batches[i].Ok? }

  /** `error` is reported at position i, after successes, before poison. */
  ghost predicate FailsAt(batches: seq<Batch>, i: nat, error: Batch)
  {
    && i < |batches| && batches[i] == error
    && (forall j :: 0 <= j < i ==> batches[j].Ok?)
    && (forall j :: i < j < |batches| ==> batches[j] == Err(DecoderPoisoned))
  }

  lemma {:induction false} FeedCarriesEvents(c: Config, d: Decoder, bytes: Bytes, events: seq<Event>)
    ensures var (d', b) := Feed(c, d, bytes, []);
            Feed(c, d, bytes, events) == (d', if b.Ok? then Ok(events + b.value) else b)
    decreases |bytes|
  {
    if bytes == [] {
      assert events + [] == events;
    } else if bytes[0] == NEWLINE {
      match c.decode(d.buffer) {
        case Ok(Some(event)) =>
          var d1 := d.(buffer := []);
          FeedCarriesEvents(c, d1, bytes[1..], events + [event]);
          FeedCarriesEvents(c, d1, bytes[1..], [event]);
          assert [] + [event] == [event];
          var b := Feed(c, d1, bytes[1..], []).1;
          if b.Ok? { assert events + [event] + b.value == events + ([event] + b.value); }
        case Ok(None) =>
          FeedCarriesEvents(c, d.(buffer := [], ignored := Counted(d.ignored)), bytes[1..], events);
        case Err(_) =>
      }
    } else if |d.buffer| < c.maxLineBytes {
      FeedCarriesEvents(c, d.(buffer := d.buffer + [bytes[0]]), bytes[1..], events);
    }
  }

  lemma {:induction false} FeedConcat(c: Config, d: Decoder, a: Bytes, b: Bytes, events: seq<Event>)
    ensures var (d1, r1) := Feed(c, d, a, events);
            Feed(c, d, a + b, events) == if r1.Ok? then Feed(c, d1, b, r1.value) else (d1, r1)
    decreases |a|
  {
    if a == [] {
      assert a + b == b;
    } else {
      assert (a + b)[1..] == a[1..] + b && (a + b)[0] == a[0];
      if a[0] == NEWLINE {
        match c.decode(d.buffer) {
          case Ok(Some(event)) => FeedConcat(c, d.(buffer := []), a[1..], b, events + [event]);
          case Ok(None) =>
            FeedConcat(c, d.(buffer := [], ignored := Counted(d.ignored)), a[1..], b, events);
          case Err(_) =>
        }
      } else if |d.buffer| < c.maxLineBytes {
        FeedConcat(c, d.(buffer := d.buffer + [a[0]]), a[1..], b, events);
      }
    }
  }

  lemma {:induction false} FeedBounds(c: Config, d: Decoder, bytes: Bytes, events: seq<Event>)
    requires |d.buffer| <= c.maxLineBytes && !d.poisoned
    ensures var (d', r) := Feed(c, d, bytes, events);
            && |d'.buffer| <= c.maxLineBytes
            && (d'.poisoned <==> r.Err?)
            && (d'.poisoned ==> d'.buffer == [])
    decreases |bytes|
  {
    if bytes != [] {
      if bytes[0] == NEWLINE {
        match c.decode(d.buffer) {
          case Ok(Some(event)) => FeedBounds(c, d.(buffer := []), bytes[1..], events + [event]);
          case Ok(None) =>
            FeedBounds(c, d.(buffer := [], ignored := Counted(d.ignored)), bytes[1..], events);
          case Err(_) =>
        }
      } else if |d.buffer| < c.maxLineBytes {
        FeedBounds(c, d.(buffer := d.buffer + [bytes[0]]), bytes[1..], events);
      }
    }
  }

  lemma {:induction false} PoisonIsPermanent(c: Config, d: Decoder, chunks: seq<Bytes>)
    requires d.poisoned
    ensures var (d', bs) := PushAll(c, d, chunks);
            d' == d && forall i :: 0 <= i < |bs| ==> bs[i] == Err(DecoderPoisoned)
    decreases |chunks|
  {
    if chunks != [] { PoisonIsPermanent(c, d, chunks[1..]); }
  }

  /** Main result. However stdout is cut into chunks, pushing them one by one
      succeeds exactly when one push of the whole stream does, with the same
      events, ignored-line count and remaining buffer; otherwise exactly one
      chunk reports the same first error, every chunk before it succeeds and
      every chunk after it finds the decoder poisoned. The line buffer never
      outgrows its bound. */
  lemma {:induction false} ChunkingIsInvisible(c: Config, d: Decoder, chunks: seq<Bytes>)
    requires !d.poisoned && |d.buffer| <= c.maxLineBytes
    ensures var (once, whole) := Push(c, d, Joined(chunks));
            var (d', bs) := PushAll(c, d, chunks);
            && |d'.buffer| <= c.maxLineBytes
            && (AllOk(bs) <==> whole.Ok?)
            && (whole.Ok? ==> whole.value == Yielded(bs) && d' == once)
            && (whole.Err? ==> d'.poisoned && exists i: nat :: FailsAt(bs, i, whole))
    decreases |chunks|
  {
    if chunks != [] {
      var (d1, b) := Push(c, d, chunks[0]);
      var rest := Joined(chunks[1..]);
      var (d', later) := PushAll(c, d1, chunks[1..]);
      var bs := [b] + later;
      FeedBounds(c, d, chunks[0], []);
      FeedConcat(c, d, chunks[0], rest, []);
      if b.Err? {
        PoisonIsPermanent(c, d1, chunks[1..]);
        assert forall j :: 0 < j < |bs| ==> bs[j] == later[j - 1];
        assert FailsAt(bs, 0, b);
      } else {
        ChunkingIsInvisible(c, d1, chunks[1..]);
        FeedCarriesEvents(c, d1, rest, b.value);
        assert bs[1..] == later;
        var whole := Push(c, d1, rest).1;
        if whole.Err? {
          var i: nat :| FailsAt(later, i, whole);
          ShiftFailure(b, later, i, whole);
        } else {
          assert AllOk(bs);
        }
      }
    }
  }

  lemma ShiftFailure(b: Batch, later: seq<Batch>, i: nat, whole: Batch)
    requires b.Ok? && whole.Err? && FailsAt(later, i, whole)
    ensures FailsAt([b] + later, i + 1, whole) && !AllOk([b] + later)
  {
    var bs := [b] + later;
    assert forall j :: 0 < j < |bs| ==> bs[j] == later[j - 1];
    assert !bs[i + 1].Ok?;
  }

  // -------------------------------------------- a reading by whole lines

  /** The complete lines of a stream, without their newlines. */
  function Lines(stream: Bytes, line: Bytes): seq<Bytes>
    decreases |stream|
  {
    if stream == [] then []
    else if stream[0] == NEWLINE then [line] + Lines(stream[1..], [])
    else Lines(stream[1..], line + [stream[0]])
  }

  /** What follows the last newline. */
  function Unterminated(stream: Bytes, line: Bytes): Bytes
    decreases |stream|
  {
    if stream == [] then line
    else Unterminated(stream[1..], if stream[0] == NEWLINE then [] else line + [stream[0]])
  }

  /** Reading lines in order: an overlong or undecodable line is the outcome,
      an overlong unterminated tail is the outcome of last resort. */
  function ReadLines(c: Config, lines: seq<Bytes>, tail: Bytes): Batch
  {
    if lines == [] then if |tail| > c.maxLineBytes then Err(LineTooLong) else Ok([])
    else if |lines[0]| > c.maxLineBytes then Err(LineTooLong)
    else match c.decode(lines[0])
      case Err(error) => Err(error)
      case Ok(found) =>
        match ReadLines(c, lines[1..], tail)
        case Err(error) => Err(error)
        case Ok(events) => Ok((if found.Some? then [found.value] else []) + events)
  }

  /** How many lines carry no event. */
  function Noise(c: Config, lines: seq<Bytes>): nat
  {
    if lines == [] then 0 else (if c.decode(lines[0]) == Ok(None) then 1 else 0) + Noise(c, lines[1..])
  }

  lemma {:induction false} LongLineStaysLong(c: Config, stream: Bytes, line: Bytes)
    requires |line| > c.maxLineBytes
    ensures ReadLines(c, Lines(stream, line), Unterminated(stream, line)) == Err(LineTooLong)
    decreases |stream|
  {
    if stream != [] && stream[0] != NEWLINE { LongLineStaysLong(c, stream[1..], line + [stream[0]]); }
  }

  /** The byte-at-a-time decoder refines the reading by whole lines: it yields
      the meanings of the prefixed lines in order, or the first error in
      stream order, and keeps just the unterminated tail. */
  lemma {:induction false} FeedReadsLines(c: Config, d: Decoder, stream: Bytes)
    requires |d.buffer| <= c.maxLineBytes && !d.poisoned && d.ignored <= U64_MAX
    ensures var (d', r) := Feed(c, d, stream, []);
            && r == ReadLines(c, Lines(stream, d.buffer), Unterminated(stream, d.buffer))
            && (r.Ok? ==>
                  && d'.buffer == Unterminated(stream, d.buffer)
                  && d'.ignored == Min(d.ignored + Noise(c, Lines(stream, d.buffer)), U64_MAX)
                  && !d'.poisoned)
    decreases |stream|
  {
    if stream != [] {
      var rest := stream[1..];
      if stream[0] == NEWLINE {
        match c.decode(d.buffer) {
          case Ok(Some(event)) =>
            FeedReadsLines(c, d.(buffer := []), rest);
            FeedCarriesEvents(c, d.(buffer := []), rest, [event]);
            assert [] + [event] == [event];
          case Ok(None) =>
            FeedReadsLines(c, d.(buffer := [], ignored := Counted(d.ignored)), rest);
            var b := ReadLines(c, Lines(rest, []), Unterminated(rest, []));
            assert b.Ok? ==> [] + b.value == b.value;
          case Err(_) =>
        }
        assert Lines(stream, d.buffer)[1..] == Lines(rest, []);
      } else if |d.buffer| < c.maxLineBytes {
        FeedReadsLines(c, d.(buffer := d.buffer + [stream[0]]), rest);
      } else {
        LongLineStaysLong(c, rest, d.buffer + [stream[0]]);
      }
    }
  }

  /** A stream is a sequence of whole lines exactly when nothing is left over;
      a fresh decoder that accepted it then finishes, and only then. */
  lemma FinishMeansWholeLines(c: Config, stream: Bytes)
    requires Push(c, FRESH, stream).1.Ok?
    ensures Finish(Push(c, FRESH, stream).0).1.Ok? <==> stream == [] || stream[|stream| - 1] == NEWLINE
  {
    FeedReadsLines(c, FRESH, stream);
    TailIsEmptyAtNewline(stream, []);
  }

  lemma {:induction false} TailIsEmptyAtNewline(stream: Bytes, line: Bytes)
    ensures Unterminated(stream, line) == [] <==>
              if stream == [] then line == [] else stream[|stream| - 1] == NEWLINE
    decreases |stream|
  {
    if stream != [] {
      TailIsEmptyAtNewline(stream[1..], if stream[0] == NEWLINE then [] else line + [stream[0]]);
      if |stream| > 1 { assert stream[|stream| - 1] == stream[1..][|stream| - 2]; }
    }
  }

  // ------------------------------------------------------ events as emitted

  /** How a launcher writes JSON: undone by parsing, on one line. */
  ghost predicate Prints(write: RawEvent -> Bytes, parse: Bytes -> Option<RawEvent>)
  {
    forall raw :: parse(write(raw)) == Some(raw) && write(raw) != [] && NEWLINE !in write(raw)
      && write(raw)[|write(raw)| - 1] != 0x0D
  }

  /** One event as one prefixed line, with either line ending. */
  function EmittedLine(write: RawEvent -> Bytes, e: Event, carriageReturn: bool): Bytes
  {
    EVENT_PREFIX + write(Canonical(e)) + (if carriageReturn then [0x0D] else [])
  }

  ghost predicate Expressible(e: Event)
  {
    ValidEvent(e) && (e.Error? ==> |Encoded(e.message)| <= 4096)
  }

  lemma EmittedLineMeans(write: RawEvent -> Bytes, parse: Bytes -> Option<RawEvent>, e: Event, carriageReturn: bool)
    requires Prints(write, parse) && Expressible(e)
    ensures DecodeLine(parse, EmittedLine(write, e, carriageReturn)) == Ok(Some(e))
    ensures NEWLINE !in EmittedLine(write, e, carriageReturn)
  {
    hide ParseEvent, Canonical, ValidEvent;
    var json := write(Canonical(e));
    var line := EmittedLine(write, e, carriageReturn);
    assert parse(json) == Some(Canonical(e)) && json != [];
    assert (EVENT_PREFIX + json)[|EVENT_PREFIX|..] == json;
    assert EVENT_PREFIX <= EVENT_PREFIX + json;
    if carriageReturn {
      assert line[..|line| - 1] == EVENT_PREFIX + json;
    } else {
      assert line == EVENT_PREFIX + json;
      assert line[|line| - 1] == json[|json| - 1];
    }
    CanonicalShapeIsAccepted(e);
  }

  function Emitted(write: RawEvent -> Bytes, events: seq<Event>, carriageReturn: bool): Bytes
  {
    if events == [] then []
    else EmittedLine(write, events[0], carriageReturn) + [NEWLINE] + Emitted(write, events[1..], carriageReturn)
  }

  lemma {:induction false} LinesTakeOne(line: Bytes, before: Bytes, rest: Bytes)
    requires NEWLINE !in line
    ensures Lines(line + [NEWLINE] + rest, before) == [before + line] + Lines(rest, [])
    ensures Unterminated(line + [NEWLINE] + rest, before) == Unterminated(rest, [])
    decreases |line|
  {
    var whole := line + [NEWLINE] + rest;
    if line == [] {
      assert whole[1..] == rest && before + line == before;
    } else {
      assert whole[1..] == line[1..] + [NEWLINE] + rest;
      LinesTakeOne(line[1..], before + [line[0]], rest);
      assert before + [line[0]] + line[1..] == before + line;
    }
  }

  lemma {:induction false} EmittedReads(
      c: Config, write: RawEvent -> Bytes, parse: Bytes -> Option<RawEvent>, events: seq<Event>, carriageReturn: bool)
    requires Prints(write, parse) && forall line :: c.decode(line) == DecodeLine(parse, line)
    requires forall i :: 0 <= i < |events| ==>
               Expressible(events[i]) && |EmittedLine(write, events[i], carriageReturn)| <= c.maxLineBytes
    ensures var stream := Emitted(write, events, carriageReturn);
            ReadLines(c, Lines(stream, []), Unterminated(stream, [])) == Ok(events)
    decreases |events|
  {
    hide EmittedLine, DecodeLine, Expressible, Prints;
    if events != [] {
      var line := EmittedLine(write, events[0], carriageReturn);
      var rest := Emitted(write, events[1..], carriageReturn);
      EmittedLineMeans(write, parse, events[0], carriageReturn);
      LinesTakeOne(line, [], rest);
      assert [] + line == line;
      EmittedReads(c, write, parse, events[1..], carriageReturn);
      assert ([line] + Lines(rest, []))[1..] == Lines(rest, []);
      assert [events[0]] + events[1..] == events;
    }
  }

  /** Main result: whatever expressible events a launcher emits, as lines within
      the bound, a fresh decoder yields exactly those events and finishes. */
  lemma EmittedEventsAreDecoded(
      maxLineBytes: nat, write: RawEvent -> Bytes, parse: Bytes -> Option<RawEvent>,
      events: seq<Event>, carriageReturn: bool)
    requires Prints(write, parse)
    requires forall i :: 0 <= i < |events| ==>
               Expressible(events[i]) && |EmittedLine(write, events[i], carriageReturn)| <= maxLineBytes
    ensures var (d, r) := Push(Configured(maxLineBytes, parse), FRESH, Emitted(write, events, carriageReturn));
            r == Ok(events) && Finish(d).1.Ok?
  {
    hide EmittedLine, Expressible, Prints, DecodeLine, Feed, ReadLines, Lines, Unterminated;
    var c := Configured(maxLineBytes, parse);
    var stream := Emitted(write, events, carriageReturn);
    EmittedReads(c, write, parse, events, carriageReturn);
    FeedReadsLines(c, FRESH, stream);
    EmittedEndsInNewline(write, events, carriageReturn);
    FinishMeansWholeLines(c, stream);
  }

  lemma {:induction false} EmittedEndsInNewline(write: RawEvent -> Bytes, events: seq<Event>, carriageReturn: bool)
    ensures var stream := Emitted(write, events, carriageReturn);
            stream == [] || stream[|stream| - 1] == NEWLINE
    decreases |events|
  {
    if events != [] { EmittedEndsInNewline(write, events[1..], carriageReturn); }
  }

  // --------------------------------------------- events among other output

  /** What a launcher and its runtime print: events, and anything else. */
  datatype Printed = Said(event: Event) | Noted(text: Bytes)

  function Ascii(s: string): Bytes
    requires forall i :: 0 <= i < |s| ==> s[i] < '\U{80}'
  {
    seq(|s|, i requires 0 <= i < |s| => s[i] as int)
  }

  lemma PrefixIsSpelled()
    ensures EVENT_PREFIX == Ascii("RPACKIT_EVENT ")
  {
  }

  function PrintedLine(write: RawEvent -> Bytes, item: Printed, carriageReturn: bool): Bytes
  {
    if item.Said? then EmittedLine(write, item.event, carriageReturn) else item.text
  }

  function PrintedStream(write: RawEvent -> Bytes, items: seq<Printed>, carriageReturn: bool): Bytes
  {
    if items == [] then []
    else PrintedLine(write, items[0], carriageReturn) + [NEWLINE] + PrintedStream(write, items[1..], carriageReturn)
  }

  function SaidIn(items: seq<Printed>): seq<Event>
  {
    if items == [] then [] else (if items[0].Said? then [items[0].event] else []) + SaidIn(items[1..])
  }

  function NotedIn(items: seq<Printed>): nat
  {
    if items == [] then 0 else (if items[0].Noted? then 1 else 0) + NotedIn(items[1..])
  }

  /** A line within the bound that is an event or does not pretend to be one. */
  ghost predicate Presentable(maxLineBytes: nat, write: RawEvent -> Bytes, item: Printed, carriageReturn: bool)
  {
    && |PrintedLine(write, item, carriageReturn)| <= maxLineBytes
    && match item
       case Said(e) => Expressible(e)
       case Noted(text) => 0x0A !in text && !(Ascii("RPACKIT_EVENT ") <= text)
  }

  lemma PrintedLineMeans(
      maxLineBytes: nat, write: RawEvent -> Bytes, parse: Bytes -> Option<RawEvent>,
      item: Printed, carriageReturn: bool)
    requires Prints(write, parse) && Presentable(maxLineBytes, write, item, carriageReturn)
    ensures DecodeLine(parse, PrintedLine(write, item, carriageReturn))
         == Ok(if item.Said? then Some(item.event) else None)
    ensures NEWLINE !in PrintedLine(write, item, carriageReturn)
  {
    hide Prints, Expressible, EmittedLine, ParseEvent;
    PrefixIsSpelled();
    if item.Said? { EmittedLineMeans(write, parse, item.event, carriageReturn); }
  }

  /** What lines that are events or no events yield, and what follows them. */
  lemma {:induction false} PrintedReads(
      c: Config, write: RawEvent -> Bytes, parse: Bytes -> Option<RawEvent>, items: seq<Printed>,
      carriageReturn: bool, rest: Bytes)
    requires Prints(write, parse) && forall line :: c.decode(line) == DecodeLine(parse, line)
    requires forall i :: 0 <= i < |items| ==> Presentable(c.maxLineBytes, write, items[i], carriageReturn)
    ensures var stream := PrintedStream(write, items, carriageReturn) + rest;
            var later := ReadLines(c, Lines(rest, []), Unterminated(rest, []));
            && ReadLines(c, Lines(stream, []), Unterminated(stream, []))
               == (if later.Ok? then Ok(SaidIn(items) + later.value) else later)
            && Noise(c, Lines(stream, [])) == NotedIn(items) + Noise(c, Lines(rest, []))
            && Unterminated(stream, []) == Unterminated(rest, [])
    decreases |items|
  {
    hide PrintedLine, DecodeLine, Presentable, Prints, Lines, Unterminated, ReadLines, Noise;
    var later := ReadLines(c, Lines(rest, []), Unterminated(rest, []));
    if items == [] {
      assert PrintedStream(write, items, carriageReturn) + rest == rest;
      assert later.Ok? ==> SaidIn(items) + later.value == later.value;
    } else {
      var line := PrintedLine(write, items[0], carriageReturn);
      var more := PrintedStream(write, items[1..], carriageReturn) + rest;
      var stream := PrintedStream(write, items, carriageReturn) + rest;
      assert stream == line + [NEWLINE] + more;
      PrintedLineMeans(c.maxLineBytes, write, parse, items[0], carriageReturn);
      PresentableFits(c.maxLineBytes, write, items[0], carriageReturn);
      LinesTakeOne(line, [], more);
      assert [] + line == line;
      ReadOneLine(c, line, Lines(more, []), Unterminated(more, []));
      PrintedReads(c, write, parse, items[1..], carriageReturn, rest);
      var head := if items[0].Said? then [items[0].event] else [];
      assert later.Ok? ==> head + (SaidIn(items[1..]) + later.value) == head + SaidIn(items[1..]) + later.value;
    }
  }

  lemma ReadOneLine(c: Config, line: Bytes, lines: seq<Bytes>, tail: Bytes)
    requires |line| <= c.maxLineBytes && c.decode(line).Ok?
    ensures var found := c.decode(line).value;
            var later := ReadLines(c, lines, tail);
            && ReadLines(c, [line] + lines, tail)
               == (if later.Ok? then Ok((if found.Some? then [found.value] else []) + later.value) else later)
            && Noise(c, [line] + lines) == Noise(c, lines) + if found.None? then 1 else 0
  {
    assert ([line] + lines)[1..] == lines;
  }

  lemma PresentableFits(maxLineBytes: nat, write: RawEvent -> Bytes, item: Printed, carriageReturn: bool)
    requires Presentable(maxLineBytes, write, item, carriageReturn)
    ensures |PrintedLine(write, item, carriageReturn)| <= maxLineBytes
  {
  }

  lemma {:induction false} PrintedEndsInNewline(write: RawEvent -> Bytes, items: seq<Printed>, carriageReturn: bool)
    ensures var stream := PrintedStream(write, items, carriageReturn);
            stream == [] || stream[|stream| - 1] == NEWLINE
    decreases |items|
  {
    if items != [] { PrintedEndsInNewline(write, items[1..], carriageReturn); }
  }

  /** Main result: however a launcher's events are mixed with other output that
      does not start with the event prefix, a fresh decoder yields exactly the
      events in order, counts exactly the other lines, and finishes. */
  lemma MixedOutputIsDecoded(
      maxLineBytes: nat, write: RawEvent -> Bytes, parse: Bytes -> Option<RawEvent>,
      items: seq<Printed>, carriageReturn: bool)
    requires Prints(write, parse)
    requires forall i :: 0 <= i < |items| ==> Presentable(maxLineBytes, write, items[i], carriageReturn)
    ensures var (d, r) := Push(Configured(maxLineBytes, parse), FRESH, PrintedStream(write, items, carriageReturn));
            && r == Ok(SaidIn(items)) && d.ignored == Min(NotedIn(items), U64_MAX)
            && Finish(d).1.Ok?
  {
    hide Presentable, Prints, DecodeLine, Feed, Noise, PrintedStream;
    var c := Configured(maxLineBytes, parse);
    var stream := PrintedStream(write, items, carriageReturn);
    assert stream + [] == stream && SaidIn(items) + [] == SaidIn(items) && Noise(c, []) == 0 by { NoNoise(c); }
    assert Lines([], []) == [] && Unterminated([], []) == [];
    PrintedReads(c, write, parse, items, carriageReturn, []);
    FeedReadsLines(c, FRESH, stream);
    PrintedEndsInNewline(write, items, carriageReturn);
    FinishMeansWholeLines(c, stream);
  }

  lemma NoNoise(c: Config)
    ensures Noise(c, []) == 0
  {
  }

  /** Why a prefixed line is refused, if it is. */
  function Refusal(parse: Bytes -> Option<RawEvent>, json: Bytes): Option<ProtocolError>
  {
    if json == [] || parse(json).None? then Some(InvalidJson)
    else match ParseEvent(parse(json).value)
      case Ok(_) => None
      case Err(error) => Some(error)
  }

  lemma RefusedLineMeans(parse: Bytes -> Option<RawEvent>, json: Bytes, carriageReturn: bool)
    requires Refusal(parse, json).Some? && (json == [] || json[|json| - 1] != CARRIAGE_RETURN)
    ensures var line := Ascii("RPACKIT_EVENT ") + json + (if carriageReturn then [CARRIAGE_RETURN] else []);
            DecodeLine(parse, line) == Err(Refusal(parse, json).value)
  {
    hide ParseEvent;
    PrefixIsSpelled();
    var text := EVENT_PREFIX + json;
    assert text[|EVENT_PREFIX|..] == json;
    var line := text + (if carriageReturn then [CARRIAGE_RETURN] else []);
    if carriageReturn {
      assert line[..|line| - 1] == text;
    } else {
      assert line == text;
    }
  }

  /** Main result on bad input: after any such output, a line that starts with
      the prefix and carries no valid event fails the decoder with exactly the
      reason of that line, whatever follows it. */
  lemma BadEventFailsTheDecoder(
      maxLineBytes: nat, write: RawEvent -> Bytes, parse: Bytes -> Option<RawEvent>,
      items: seq<Printed>, carriageReturn: bool, json: Bytes, rest: Bytes)
    requires Prints(write, parse)
    requires forall i :: 0 <= i < |items| ==> Presentable(maxLineBytes, write, items[i], carriageReturn)
    requires Refusal(parse, json).Some? && NEWLINE !in json && (json == [] || json[|json| - 1] != CARRIAGE_RETURN)
    requires |EVENT_PREFIX| + |json| + 1 <= maxLineBytes
    ensures var line := Ascii("RPACKIT_EVENT ") + json + (if carriageReturn then [CARRIAGE_RETURN] else []);
            var stream := PrintedStream(write, items, carriageReturn) + (line + [NEWLINE] + rest);
            Push(Configured(maxLineBytes, parse), FRESH, stream).1 == Err(Refusal(parse, json).value)
  {
    hide Presentable, Prints, DecodeLine, Feed, Noise, PrintedStream, Refusal;
    var c := Configured(maxLineBytes, parse);
    var line := Ascii("RPACKIT_EVENT ") + json + (if carriageReturn then [CARRIAGE_RETURN] else []);
    PrefixIsSpelled();
    RefusedLineMeans(parse, json, carriageReturn);
    LinesTakeOne(line, [], rest);
    assert [] + line == line;
    PrintedReads(c, write, parse, items, carriageReturn, line + [NEWLINE] + rest);
    FeedReadsLines(c, FRESH, PrintedStream(write, items, carriageReturn) + (line + [NEWLINE] + rest));
  }

  /** How a stream is closed: a failed decoder stays failed, a partial last line
      fails it, and nothing can be pushed or finished afterwards. */
  lemma FinishIsExact(c: Config, stream: Bytes, more: Bytes)
    ensures var (d, r) := Push(c, FRESH, stream);
            var (e, end) := Finish(d);
            && (r.Err? ==> end == Err(DecoderPoisoned))
            && (r.Ok? ==> end == if stream == [] || stream[|stream| - 1] == NEWLINE then Ok(()) else Err(TruncatedLine))
            && (end.Err? ==> Push(c, e, more).1 == Err(DecoderPoisoned) && Finish(e).1 == Err(DecoderPoisoned))
  {
    hide Feed, Unterminated, ReadLines, Lines, Noise;
    FeedBounds(c, FRESH, stream, []);
    var (d, r) := Push(c, FRESH, stream);
    assert d.poisoned <==> r.Err?;
    if r.Ok? {
      FeedReadsLines(c, FRESH, stream);
      FinishMeansWholeLines(c, stream);
      assert !d.poisoned;
    }
    var (e, end) := Finish(d);
    assert end.Err? ==> e.poisoned;
  }
}
