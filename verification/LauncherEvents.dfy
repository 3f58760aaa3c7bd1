/** Launcher protocol 2: events and the exact field shapes they arrive in. */
module LauncherEvents {
  import opened Common

  const MAX_TIMESTAMP_BYTES: nat := 128
  const MAX_MESSAGE_BYTES: nat := 4096

  /** The integer widths the JSON fields are read with. */
  type Pid = n: nat | n <= 0xFFFF_FFFF
  type Port = n: nat | n <= 0xFFFF

  datatype Phase = Bootstrap | Arguments | Token | App | Runtime

  datatype Event =
    | Starting(timestamp: string, pid: Pid, port: Port, gracefulStop: bool)
    | Listening(timestamp: string, pid: Pid, port: Port)
    | Stopping(timestamp: string)
    | Stopped(timestamp: string, pid: Pid)
    | Error(when: Option<string>, phase: Phase, message: string, reportedPid: Option<Pid>)

  datatype ProtocolError =
    | ZeroLineLimit | InvalidExpectedPort | LineTooLong | TruncatedLine | DecoderPoisoned | InvalidJson
    | UnsupportedProtocolVersion | UnknownEvent | InvalidEventShape
    | UnexpectedPort | RuntimePidChanged | GracefulStopMismatch
    | UnexpectedEventSequence | EventAfterTerminalState

  /** One deserialized JSON object; absent fields are None. */
  datatype RawEvent = RawEvent(
    protocolVersion: string, event: string, timestamp: Option<string>, pid: Option<Pid>,
    host: Option<string>, port: Option<Port>, tokenEnforced: Option<bool>,
    gracefulStop: Option<bool>, reason: Option<string>, phase: Option<string>, message: Option<string>)

  // ----------------------------------------------------------- text checks

  predicate IsControl(c: char) { c < ' ' || '\U{7F}' <= c <= '\U{9F}' }

  predicate IsBlank(c: char)
  {
    || c == ' ' || c == '\U{A0}' || c == '\U{1680}' || '\U{2000}' <= c <= '\U{200A}'
    || c == '\U{2028}' || c == '\U{2029}' || c == '\U{202F}' || c == '\U{205F}' || c == '\U{3000}'
  }

  /** Length in UTF-8 bytes. */
  function ByteLength(s: string): nat
  {
    if s == [] then 0
    else (if s[0] < '\U{80}' then 1 else if s[0] < '\U{800}' then 2
          else if s[0] < '\U{10000}' then 3 else 4) + ByteLength(s[1..])
  }

  function WithoutControls(s: string): (r: string)
    ensures |r| == |s|
    ensures forall i :: 0 <= i < |r| ==> !IsControl(r[i])
    ensures (forall i :: 0 <= i < |s| ==> !IsControl(s[i])) ==> r == s
  {
    seq(|s|, i requires 0 <= i < |s| => if IsControl(s[i]) then ' ' else s[i])
  }

  function Trim(s: string): string
    decreases |s|
  {
    if s == [] then []
    else if IsBlank(s[0]) then Trim(s[1..])
    else if IsBlank(s[|s| - 1]) then Trim(s[..|s| - 1])
    else s
  }

  predicate IsTrimmed(s: string) { s != [] ==> !IsBlank(s[0]) && !IsBlank(s[|s| - 1]) }

  lemma {:induction false} TrimKeepsClean(s: string)
    requires forall i :: 0 <= i < |s| ==> !IsControl(s[i])
    ensures IsTrimmed(Trim(s)) && |Trim(s)| <= |s|
    ensures forall i :: 0 <= i < |Trim(s)| ==> !IsControl(Trim(s)[i])
    ensures IsTrimmed(s) ==> Trim(s) == s
    decreases |s|
  {
    if s != [] {
      if IsBlank(s[0]) { TrimKeepsClean(s[1..]); }
      else if IsBlank(s[|s| - 1]) { TrimKeepsClean(s[..|s| - 1]); }
    }
  }

  predicate ValidTimestamp(s: string)
  {
    s != [] && ByteLength(s) <= MAX_TIMESTAMP_BYTES && forall i :: 0 <= i < |s| ==> !IsControl(s[i])
  }

  function SanitizeMessage(message: string): Option<string>
  {
    if message == [] || ByteLength(message) > MAX_MESSAGE_BYTES then None
    else
      var s := Trim(WithoutControls(message));
      if s == [] then None else Some(s)
  }

  function ParsePhase(phase: Option<string>): Option<Phase>
  {
    if phase == Some("bootstrap") then Some(Bootstrap)
    else if phase == Some("arguments") then Some(Arguments)
    else if phase == Some("token") then Some(Token)
    else if phase == Some("app") then Some(App)
    else if phase == Some("runtime") then Some(Runtime)
    else None
  }

  function PhaseName(phase: Phase): string
  {
    match phase
    case Bootstrap => "bootstrap"
    case Arguments => "arguments"
    case Token => "token"
    case App => "app"
    case Runtime => "runtime"
  }

  // ------------------------------------------------------------- the parser

  predicate LoopbackAuthenticated(raw: RawEvent)
  {
    raw.host == Some("127.0.0.1") && raw.tokenEnforced == Some(true)
  }

  predicate HasTimestamp(raw: RawEvent) { raw.timestamp.Some? && ValidTimestamp(raw.timestamp.value) }

  predicate HasPid(raw: RawEvent) { raw.pid.Some? && raw.pid.value != 0 }

  predicate HasPort(raw: RawEvent) { raw.port.Some? && raw.port.value != 0 }

  function ParseEvent(raw: RawEvent): Result<Event, ProtocolError>
  {
    if raw.protocolVersion != "2" then Err(UnsupportedProtocolVersion)
    else if raw.event == "starting" then
      if raw.reason.Some? || raw.phase.Some? || raw.message.Some? || !LoopbackAuthenticated(raw)
        || !HasTimestamp(raw) || !HasPid(raw) || !HasPort(raw) || raw.gracefulStop.None?
      then Err(InvalidEventShape)
      else Ok(Starting(raw.timestamp.value, raw.pid.value, raw.port.value, raw.gracefulStop.value))
    else if raw.event == "listening" then
      if raw.gracefulStop.Some? || raw.reason.Some? || raw.phase.Some? || raw.message.Some?
        || !LoopbackAuthenticated(raw) || !HasTimestamp(raw) || !HasPid(raw) || !HasPort(raw)
      then Err(InvalidEventShape)
      else Ok(Listening(raw.timestamp.value, raw.pid.value, raw.port.value))
    else if raw.event == "stopping" then
      if raw.pid.Some? || raw.host.Some? || raw.port.Some? || raw.tokenEnforced.Some?
        || raw.gracefulStop.Some? || raw.phase.Some? || raw.message.Some?
        || raw.reason != Some("control-file") || !HasTimestamp(raw)
      then Err(InvalidEventShape)
      else Ok(Stopping(raw.timestamp.value))
    else if raw.event == "stopped" then
      if raw.host.Some? || raw.port.Some? || raw.tokenEnforced.Some? || raw.gracefulStop.Some?
        || raw.reason.Some? || raw.phase.Some? || raw.message.Some? || !HasTimestamp(raw) || !HasPid(raw)
      then Err(InvalidEventShape)
      else Ok(Stopped(raw.timestamp.value, raw.pid.value))
    else if raw.event == "error" then
      var phase := ParsePhase(raw.phase);
      if raw.host.Some? || raw.port.Some? || raw.tokenEnforced.Some? || raw.gracefulStop.Some?
        || raw.reason.Some? || phase.None?
        || (if raw.timestamp.Some? then !ValidTimestamp(raw.timestamp.value)
            else phase.value != Bootstrap || raw.pid.Some?)
        || raw.message.None? || SanitizeMessage(raw.message.value).None? || raw.pid == Some(0)
      then Err(InvalidEventShape)
      else Ok(Error(raw.timestamp, phase.value, SanitizeMessage(raw.message.value).value, raw.pid))
    else Err(UnknownEvent)
  }

  // ---------------------------------------------------- exactness of shapes

  /** No control character of Unicode. */
  predicate Printable(s: string)
  {
    forall i :: 0 <= i < |s| ==> s[i] as int >= 0x20 && !(0x7F <= s[i] as int <= 0x9F)
  }

  /** How UTF-8 writes one character. */
  function Utf8(c: char): seq<nat>
  {
    var n := c as int;
    if n <= 0x7F then [n]
    else if n <= 0x7FF then [0xC0 + n / 0x40, 0x80 + n % 0x40]
    else if n <= 0xFFFF then [0xE0 + n / 0x1000, 0x80 + n / 0x40 % 0x40, 0x80 + n % 0x40]
    else [0xF0 + n / 0x40000, 0x80 + n / 0x1000 % 0x40, 0x80 + n / 0x40 % 0x40, 0x80 + n % 0x40]
  }

  function Encoded(s: string): seq<nat>
  {
    if s == [] then [] else Utf8(s[0]) + Encoded(s[1..])
  }

  lemma {:induction false} ByteLengthIsUtf8(s: string)
    ensures ByteLength(s) == |Encoded(s)|
  {
    if s != [] { ByteLengthIsUtf8(s[1..]); }
  }

  ghost predicate Stamp(s: string) { 0 < |Encoded(s)| <= 128 && Printable(s) }

  lemma StampsAreValid(s: string)
    ensures ValidTimestamp(s) <==> Stamp(s)
  {
    ByteLengthIsUtf8(s);
    assert Printable(s) <==> forall i :: 0 <= i < |s| ==> !IsControl(s[i]);
  }

  /** What each event promises, in terms of its text alone. */
  ghost predicate ValidEvent(e: Event)
  {
    match e
    case Starting(timestamp, pid, port, _) => Stamp(timestamp) && pid > 0 && port > 0
    case Listening(timestamp, pid, port) => Stamp(timestamp) && pid > 0 && port > 0
    case Stopping(timestamp) => Stamp(timestamp)
    case Stopped(timestamp, pid) => Stamp(timestamp) && pid > 0
    case Error(when, phase, message, pid) =>
      && (if when.Some? then Stamp(when.value) else phase == Bootstrap && pid.None?)
      && pid != Some(0)
      && message != [] && IsTrimmed(message) && Printable(message)
  }

  /** The one object that means `e`. */
  function Canonical(e: Event): RawEvent
  {
    match e
    case Starting(timestamp, pid, port, graceful) =>
      RawEvent("2", "starting", Some(timestamp), Some(pid), Some("127.0.0.1"), Some(port),
               Some(true), Some(graceful), None, None, None)
    case Listening(timestamp, pid, port) =>
      RawEvent("2", "listening", Some(timestamp), Some(pid), Some("127.0.0.1"), Some(port),
               Some(true), None, None, None, None)
    case Stopping(timestamp) =>
      RawEvent("2", "stopping", Some(timestamp), None, None, None, None, None, Some("control-file"), None, None)
    case Stopped(timestamp, pid) =>
      RawEvent("2", "stopped", Some(timestamp), Some(pid), None, None, None, None, None, None, None)
    case Error(when, phase, message, pid) =>
      RawEvent("2", "error", when, pid, None, None, None, None, None, Some(PhaseName(phase)), Some(message))
  }

  lemma PrintableHasNoControl(s: string)
    ensures Printable(s) <==> forall i :: 0 <= i < |s| ==> !IsControl(s[i])
  {
  }

  lemma SanitizedIsClean(message: string)
    requires SanitizeMessage(message).Some?
    ensures var s := SanitizeMessage(message).value; s != [] && IsTrimmed(s) && Printable(s)
  {
    TrimKeepsClean(WithoutControls(message));
    PrintableHasNoControl(SanitizeMessage(message).value);
  }

  lemma CleanIsSanitized(message: string)
    requires message != [] && IsTrimmed(message) && |Encoded(message)| <= 4096 && Printable(message)
    ensures SanitizeMessage(message) == Some(message)
  {
    PrintableHasNoControl(message);
    ByteLengthIsUtf8(message);
    TrimKeepsClean(message);
  }

  /** An accepted object is the canonical one for the event it yields, up to
      the cleaning of an error message: every field is accounted for. */
  lemma AcceptedShapeIsCanonical(raw: RawEvent)
    requires ParseEvent(raw).Ok?
    ensures var e := ParseEvent(raw).value;
            && ValidEvent(e)
            && raw.(message := if e.Error? then Some(e.message) else raw.message) == Canonical(e)
  {
    hide ValidTimestamp, Stamp, SanitizeMessage;
    if raw.timestamp.Some? { StampsAreValid(raw.timestamp.value); }
    if raw.event == "error" { SanitizedIsClean(raw.message.value); }
  }

  /** Conversely every valid event is expressible, and decodes to itself. */
  lemma CanonicalShapeIsAccepted(e: Event)
    requires ValidEvent(e)
    requires e.Error? ==> |Encoded(e.message)| <= 4096
    ensures ParseEvent(Canonical(e)) == Ok(e)
  {
    hide ValidTimestamp, Stamp, SanitizeMessage, Encoded, IsTrimmed, Printable;
    if Canonical(e).timestamp.Some? { StampsAreValid(Canonical(e).timestamp.value); }
    if e.Error? { CleanIsSanitized(e.message); }
  }

  /** The message an object carries is the event's, or is cleaned to it. */
  ghost predicate Carries(raw: RawEvent, e: Event)
  {
    if e.Error? then
      && raw.message.Some? && SanitizeMessage(raw.message.value) == Some(e.message)
      && raw.(message := Some(e.message)) == Canonical(e)
    else raw == Canonical(e)
  }

  /** Main result on objects: which of them mean which event, both ways. */
  lemma ShapesAreExact(raw: RawEvent, e: Event)
    ensures ParseEvent(raw) == Ok(e) <==> ValidEvent(e) && Carries(raw, e)
  {
    hide ValidTimestamp, Stamp, SanitizeMessage;
    if ParseEvent(raw) == Ok(e) {
      AcceptedShapeIsCanonical(raw);
    } else if ValidEvent(e) && Carries(raw, e) {
      if raw.timestamp.Some? { StampsAreValid(raw.timestamp.value); }
    }
  }

  /** Which refusal an object meets that means no event. */
  lemma RefusalsAreExact(raw: RawEvent)
    requires ParseEvent(raw).Err?
    ensures ParseEvent(raw).error
         == if raw.protocolVersion != "2" then UnsupportedProtocolVersion
            else if raw.event !in {"starting", "listening", "stopping", "stopped", "error"} then UnknownEvent
            else InvalidEventShape
  {
    hide ValidTimestamp, SanitizeMessage;
  }

  // -------------------------------------------------- how a message is cleaned

  /** Blanks around an error message go, and controls inside become spaces. */
  lemma MessagesAreCleaned(before: string, message: string, after: string)
    requires AllBlank(before) && AllBlank(after)
    requires message != [] && IsTrimmed(message) && Printable(message)
    requires |Encoded(before + message + after)| <= 4096
    ensures SanitizeMessage(before + message + after) == Some(message)
  {
    hide Encoded;
    var whole := before + message + after;
    ByteLengthIsUtf8(whole);
    BlanksAreNoControls(before);
    BlanksAreNoControls(after);
    PrintableHasNoControl(message);
    PaddingIsTrimmed(before, message, after);
  }

  /** Inside a message each control becomes a space and nothing else changes. */
  lemma ControlsBecomeSpaces(message: string)
    requires message != [] && |Encoded(message)| <= 4096
    requires Printable([message[0], message[|message| - 1]]) && IsTrimmed(message)
    ensures var r := SanitizeMessage(message);
            && r.Some? && |r.value| == |message|
            && forall i :: 0 <= i < |message| ==>
                 r.value[i] == if Printable([message[i]]) then message[i] else ' '
  {
    hide Encoded;
    ByteLengthIsUtf8(message);
    var clean := WithoutControls(message);
    var ends := [message[0], message[|message| - 1]];
    PrintableHasNoControl(ends);
    assert ends[0] == message[0] && ends[1] == message[|message| - 1];
    assert clean[0] == message[0] && clean[|clean| - 1] == message[|message| - 1];
    TrimKeepsClean(clean);
    forall i | 0 <= i < |message| ensures clean[i] == if Printable([message[i]]) then message[i] else ' ' {
      PrintableHasNoControl([message[i]]);
      assert [message[i]][0] == message[i];
    }
  }

  ghost predicate AllBlank(s: string)
  {
    forall i :: 0 <= i < |s| ==>
      || s[i] as int in {0x20, 0xA0, 0x1680, 0x2028, 0x2029, 0x202F, 0x205F, 0x3000}
      || 0x2000 <= s[i] as int <= 0x200A
  }

  lemma BlanksAreNoControls(s: string)
    requires AllBlank(s)
    ensures forall i :: 0 <= i < |s| ==> IsBlank(s[i]) && !IsControl(s[i])
  {
  }

  lemma {:induction false} PaddingIsTrimmed(before: string, message: string, after: string)
    requires AllBlank(before) && AllBlank(after) && message != [] && IsTrimmed(message)
    ensures Trim(before + message + after) == message
    decreases |before| + |after|
  {
    hide AllBlank;
    var whole := before + message + after;
    BlanksAreNoControls(before);
    BlanksAreNoControls(after);
    if before != [] {
      assert whole[0] == before[0] && whole[1..] == before[1..] + message + after;
      assert before[1..|before|] == before[1..];
      BlankTail(before, 1, |before|);
      PaddingIsTrimmed(before[1..], message, after);
    } else if after != [] {
      var shorter := after[..|after| - 1];
      assert whole[0] == message[0] && whole[|whole| - 1] == after[|after| - 1];
      assert whole[..|whole| - 1] == [] + message + shorter;
      BlankTail(after, 0, |after| - 1);
      PaddingIsTrimmed([], message, shorter);
    } else {
      assert whole == message;
    }
  }

  lemma BlankTail(s: string, i: nat, j: nat)
    requires AllBlank(s) && i <= j <= |s|
    ensures AllBlank(s[i..j])
  {
  }

  ghost predicate IsMark(c: char) { Printable([c]) && !AllBlank([c]) }

  /** A message is kept exactly when it has at most 4096 bytes and something to
      read, which is neither blank nor control. */
  lemma MessagesAreKeptExactly(message: string)
    ensures SanitizeMessage(message).Some? <==>
              0 < |Encoded(message)| <= 4096 && exists i :: 0 <= i < |message| && IsMark(message[i])
  {
    hide IsMark, Encoded;
    ByteLengthIsUtf8(message);
    NonEmptyEncodes(message);
    var clean := WithoutControls(message);
    TrimsToNothing(clean);
    forall i | 0 <= i < |message| ensures IsMark(message[i]) <==> !IsBlank(clean[i]) { MarkStays(message, i); }
  }

  lemma NonEmptyEncodes(message: string)
    ensures message == [] <==> |Encoded(message)| == 0
  {
  }

  lemma MarkStays(message: string, i: nat)
    requires i < |message|
    ensures IsMark(message[i]) <==> !IsBlank(WithoutControls(message)[i])
  {
    var one := [message[i]];
    assert one[0] == message[i];
    PrintableHasNoControl(one);
  }

  lemma {:induction false} TrimsToNothing(s: string)
    ensures Trim(s) != [] <==> exists i :: 0 <= i < |s| && !IsBlank(s[i])
    decreases |s|
  {
    if s != [] {
      if IsBlank(s[0]) {
        TrimsToNothing(s[1..]);
        if i :| 0 <= i < |s| && !IsBlank(s[i]) { assert s[1..][i - 1] == s[i]; }
      } else if IsBlank(s[|s| - 1]) {
        TrimsToNothing(s[..|s| - 1]);
        assert s[..|s| - 1][0] == s[0];
      }
    }
  }
}
