/** Which upstream responses may carry a body, and under which guard. */
module ResponsePolicy {
  import opened Common
  import opened ByteStream
  import opened HttpText
  import opened Headers
  import Admission
  import BodyGuard
  import ContentCodings

  datatype BodyPolicy = StreamingBody(declared: Option<nat>) | NoBody(advertised: Option<nat>)

  datatype HeadError =
    | TrailersUnsupported | AmbiguousLength | InvalidLength | NoContentFraming | ResetContentFraming | LengthOverLimit

  const NO_CONTENT: nat := 204
  const RESET_CONTENT: nat := 205
  const NOT_MODIFIED: nat := 304

  /** Decimal digits with an optional plus sign, within 64 bits. */
  function ParseU64(s: string): Option<nat>
  {
    var digits := if s != [] && s[0] == '+' then s[1..] else s;
    if Admission.IsDigits(digits) && Admission.Number(digits) <= U64_MAX
    then Some(Admission.Number(digits)) else None
  }

  /** A response length is such a number, with or without a plus sign. */
  lemma LengthsAreNumbers(s: string)
    requires Admission.IsDigits(s)
    ensures ParseU64(s) == ParseU64("+" + s)
         == if Admission.Number(s) <= U64_MAX then Some(Admission.Number(s)) else None
  {
    assert ("+" + s)[1..] == s;
  }

  lemma OtherLengthsAreRefused(s: string)
    requires !Admission.IsDigits(s) && (s == [] || s[0] != '+' || !Admission.IsDigits(s[1..]))
    ensures ParseU64(s).None?
  {
  }

  function ValidateBodyHead(headRequest: bool, status: nat, h: HeaderMap, limit: nat): Result<BodyPolicy, HeadError>
  {
    var values := Values(h, "content-length");
    if "trailer" in h then Err(TrailersUnsupported)
    else if |values| > 1 then Err(AmbiguousLength)
    else if values != [] && (!IsVisible(values[0]) || ParseU64(values[0]).None?) then Err(InvalidLength)
    else
      var declared := if values == [] then None else ParseU64(values[0]);
      if status == NO_CONTENT && (declared.Some? || "transfer-encoding" in h) then Err(NoContentFraming)
      else if status == RESET_CONTENT
        && ((declared.Some? && declared.value != 0) || "transfer-encoding" in h) then Err(ResetContentFraming)
      else if headRequest || status in {NO_CONTENT, RESET_CONTENT, NOT_MODIFIED} then Ok(NoBody(declared))
      else if declared.Some? && declared.value > limit then Err(LengthOverLimit)
      else Ok(StreamingBody(declared))
  }

  datatype Limits = Limits(maxEncoded: nat, maxDecoded: nat, idle: nat, minimumRate: nat, window: nat)

  /** An identity body is both its encoded and its decoded form. */
  function EncodedLimit(l: Limits, codings: seq<ContentCodings.Coding>): nat
  {
    if codings == [] then Min(l.maxEncoded, l.maxDecoded) else l.maxEncoded
  }

  function GuardFor(l: Limits, codings: seq<ContentCodings.Coding>, policy: BodyPolicy): BodyGuard.Policy
  {
    match policy
    case StreamingBody(declared) =>
      BodyGuard.Streaming(declared, EncodedLimit(l, codings), l.idle, l.minimumRate, l.window)
    case NoBody(_) => BodyGuard.Forbidden()
  }

  predicate IsBodyless(headRequest: bool, status: nat)
  {
    headRequest || status in {NO_CONTENT, RESET_CONTENT, NOT_MODIFIED}
  }

  /** Main result (sections 9.3.2, 15.3.5, 15.3.6 and 15.4.5 of RFC 9110): the
      response to HEAD, and every 204, 205 or 304, releases no byte whatever
      its upstream body does; any other accepted response is streamed. */
  lemma BodylessResponsesReleaseNothing(
      headRequest: bool, status: nat, h: HeaderMap, l: Limits, codings: seq<ContentCodings.Coding>,
      inner: seq<BodyGuard.Inner>, times: seq<nat>)
    requires ValidateBodyHead(headRequest, status, h, EncodedLimit(l, codings)).Ok?
    ensures var policy := ValidateBodyHead(headRequest, status, h, EncodedLimit(l, codings)).value;
            var os := BodyGuard.Run(GuardFor(l, codings, policy), BodyGuard.Fresh(inner), times).1;
            && (policy.NoBody? <==> IsBodyless(headRequest, status))
            && (IsBodyless(headRequest, status) ==> BodyGuard.Size(BodyGuard.Frames(os)) == 0)
  {
    hide BodyGuard.Run, BodyGuard.Frames, BodyGuard.Size, ParseU64;
    var policy := ValidateBodyHead(headRequest, status, h, EncodedLimit(l, codings)).value;
    BodyGuard.ReleasedIsBoundedPrefix(GuardFor(l, codings, policy), inner, times);
  }

  /** Main result (section 6.3 of RFC 9112): what a streamed response releases
      is a prefix of the upstream body within the encoded limit, an identity
      body within both limits; an end without error means the whole body and
      exactly its declared length. */
  lemma StreamedSizesAreBounded(
      status: nat, h: HeaderMap, l: Limits, codings: seq<ContentCodings.Coding>,
      inner: seq<BodyGuard.Inner>, times: seq<nat>)
    requires ValidateBodyHead(false, status, h, EncodedLimit(l, codings)).Ok? && !IsBodyless(false, status)
    ensures var policy := ValidateBodyHead(false, status, h, EncodedLimit(l, codings)).value;
            var os := BodyGuard.Run(GuardFor(l, codings, policy), BodyGuard.Fresh(inner), times).1;
            var size := BodyGuard.Size(BodyGuard.Frames(os));
            && policy.StreamingBody?
            && (policy.declared.Some? ==> policy.declared.value <= EncodedLimit(l, codings))
            && BodyGuard.Frames(os) <= BodyGuard.Produced(inner)
            && size <= l.maxEncoded
            && (codings == [] ==> size <= l.maxDecoded)
            && (BodyGuard.EndedCleanly(os) ==>
                  && BodyGuard.EndsWell(inner) && BodyGuard.Frames(os) == BodyGuard.Produced(inner)
                  && (policy.declared.Some? ==> size == policy.declared.value))
  {
    hide BodyGuard.Run, BodyGuard.Frames, BodyGuard.Size, BodyGuard.Produced, BodyGuard.EndsWell, ParseU64;
    var policy := ValidateBodyHead(false, status, h, EncodedLimit(l, codings)).value;
    BodyGuard.ReleasedIsBoundedPrefix(GuardFor(l, codings, policy), inner, times);
  }

  // ------------------------------------------------------- encoded responses

  type Codecs = ContentCodings.Codecs<Bytes>

  /** The bytes a stack of decoders has put out at most, given what it read. */
  type Sofar = (seq<ContentCodings.Coding>, Bytes) -> Bytes

  /** A decoder never takes back what it has put out. */
  ghost predicate Streams(codecs: Codecs, sofar: Sofar)
  {
    forall codings, read, whole :: read <= whole && ContentCodings.Decode(codecs, codings, whole).Some? ==>
      sofar(codings, read) <= ContentCodings.Decode(codecs, codings, whole).value
  }

  function Flat(frames: seq<Bytes>): Bytes
  {
    if frames == [] then [] else frames[0] + Flat(frames[1..])
  }

  lemma {:induction false} FlatSize(frames: seq<Bytes>)
    ensures |Flat(frames)| == BodyGuard.Size(frames)
  {
    if frames != [] { FlatSize(frames[1..]); }
  }

  lemma {:induction false} FlatPrefix(part: seq<Bytes>, whole: seq<Bytes>)
    requires part <= whole
    ensures Flat(part) <= Flat(whole)
    decreases |part|
  {
    if part != [] { FlatPrefix(part[1..], whole[1..]); }
  }

  /** `decoded` is what decoders stacked on a guarded body may yield, however
      they cut and delay it: never more than what they have read allows, and
      an orderly end only once the body below ended without an error and its
      bytes decode to all that was put out. An error below surfaces as one. */
  ghost predicate DecodedFrom(
      codecs: Codecs, sofar: Sofar, codings: seq<ContentCodings.Coding>,
      os: seq<BodyGuard.Outcome>, decoded: seq<BodyGuard.Inner>)
  {
    var read, put := Flat(BodyGuard.Frames(os)), Flat(BodyGuard.Produced(decoded));
    && put <= sofar(codings, read)
    && (BodyGuard.EndsWell(decoded) ==>
          BodyGuard.EndedCleanly(os) && ContentCodings.Decode(codecs, codings, read) == Some(put))
  }

  /** Main result for encoded responses, from upstream body to client. The
      client receives at most the decoded limit; a clean end means that the
      encoded body ended in order at its declared length and that the client
      holds exactly its decoding; and a body ends cleanly, once decoded and
      polled to its end, exactly when its decoding fits the limit. */
  lemma DecodedResponsesAreFaithful(
      codecs: Codecs, sofar: Sofar, codings: seq<ContentCodings.Coding>, l: Limits, declared: Option<nat>,
      inner: seq<BodyGuard.Inner>, times: seq<nat>, decoded: seq<BodyGuard.Inner>, later: seq<nat>)
    requires var os := BodyGuard.Run(GuardFor(l, codings, StreamingBody(declared)), BodyGuard.Fresh(inner), times).1;
             DecodedFrom(codecs, sofar, codings, os, decoded)
    ensures var out := BodyGuard.Run(BodyGuard.Decoded(l.maxDecoded), BodyGuard.Fresh(decoded), later).1;
            var received, body := Flat(BodyGuard.Frames(out)), Flat(BodyGuard.Produced(inner));
            && |received| <= l.maxDecoded
            && (BodyGuard.EndedCleanly(out) ==>
                  && BodyGuard.EndsWell(inner) && |body| <= l.maxEncoded
                  && (declared.Some? ==> |body| == declared.value)
                  && ContentCodings.Decode(codecs, codings, body) == Some(received))
            && (BodyGuard.EndsWell(decoded) && BodyGuard.EndAt(decoded) < |later| ==>
                  && ContentCodings.Decode(codecs, codings, body).Some?
                  && (BodyGuard.EndedCleanly(out) <==>
                        |ContentCodings.Decode(codecs, codings, body).value| <= Min(l.maxDecoded, U64_MAX)))
  {
    hide BodyGuard.Run, BodyGuard.Frames, BodyGuard.Size, BodyGuard.Produced, BodyGuard.EndsWell, Flat,
      ContentCodings.Decode, BodyGuard.EndedCleanly, BodyGuard.EndAt, BodyGuard.Ideal;
    var p := GuardFor(l, codings, StreamingBody(declared));
    var os := BodyGuard.Run(p, BodyGuard.Fresh(inner), times).1;
    var q := BodyGuard.Decoded(l.maxDecoded);
    var out := BodyGuard.Run(q, BodyGuard.Fresh(decoded), later).1;
    BodyGuard.ReleasedIsBoundedPrefix(p, inner, times);
    BodyGuard.ReleasedIsBoundedPrefix(q, decoded, later);
    FlatSize(BodyGuard.Frames(out));
    FlatSize(BodyGuard.Produced(inner));
    FlatSize(BodyGuard.Produced(decoded));
    BodyGuard.BodiesPassExactly(q, decoded, later);
  }

  /** Main result for clients: whatever representation the upstream encoded by
      the Content-Encoding fields it sent, the client holds a prefix of that
      representation at all times, and all of it after a clean end. */
  lemma ClientsReceiveTheRepresentation(
      codecs: Codecs, sofar: Sofar, fields: seq<string>, layers: nat, l: Limits, declared: Option<nat>,
      inner: seq<BodyGuard.Inner>, times: seq<nat>, decoded: seq<BodyGuard.Inner>, later: seq<nat>, x: Bytes)
    requires ContentCodings.Inverse(codecs) && Streams(codecs, sofar)
    requires fields != [] && ContentCodings.ReadFields(fields, layers, []).Ok?
    requires Flat(BodyGuard.Produced(inner)) == ContentCodings.Apply(codecs, Split(Join(fields, ","), ','), x)
    requires var codings := ContentCodings.ReadFields(fields, layers, []).value;
             var os := BodyGuard.Run(GuardFor(l, codings, StreamingBody(declared)), BodyGuard.Fresh(inner), times).1;
             DecodedFrom(codecs, sofar, codings, os, decoded)
    ensures var out := BodyGuard.Run(BodyGuard.Decoded(l.maxDecoded), BodyGuard.Fresh(decoded), later).1;
            var received := Flat(BodyGuard.Frames(out));
            received <= x && (BodyGuard.EndedCleanly(out) ==> received == x)
  {
    hide BodyGuard.Run, BodyGuard.Frames, BodyGuard.Size, BodyGuard.Produced, BodyGuard.EndsWell, Flat,
      ContentCodings.Decode, BodyGuard.EndedCleanly, ContentCodings.Apply, ContentCodings.ReadFields, Split, Join,
      ContentCodings.Inverse;
    var codings := ContentCodings.ReadFields(fields, layers, []).value;
    var p := GuardFor(l, codings, StreamingBody(declared));
    var os := BodyGuard.Run(p, BodyGuard.Fresh(inner), times).1;
    var q := BodyGuard.Decoded(l.maxDecoded);
    var out := BodyGuard.Run(q, BodyGuard.Fresh(decoded), later).1;
    ContentCodings.AcceptedBodiesDecode(codecs, fields, layers, x);
    BodyGuard.ReleasedIsBoundedPrefix(p, inner, times);
    BodyGuard.ReleasedIsBoundedPrefix(q, decoded, later);
    FlatPrefix(BodyGuard.Frames(os), BodyGuard.Produced(inner));
    FlatPrefix(BodyGuard.Frames(out), BodyGuard.Produced(decoded));
    DecodedResponsesAreFaithful(codecs, sofar, codings, l, declared, inner, times, decoded, later);
  }

  /** The framing an accepted response head may have (sections 15.3.5 and
      15.3.6 of RFC 9110 for the two bodyless success statuses). */
  lemma AcceptedFramingIsExact(headRequest: bool, status: nat, h: HeaderMap, limit: nat)
    ensures var values := Values(h, "content-length");
            var length := if |values| == 1 then ParseU64(values[0]) else None;
            ValidateBodyHead(headRequest, status, h, limit).Ok? <==>
              && "trailer" !in h
              && |values| <= 1 && (|values| == 1 ==> IsVisible(values[0]) && length.Some?)
              && (status == NO_CONTENT ==> |values| == 0)
              && (status == RESET_CONTENT && |values| == 1 ==> length == Some(0))
              && (status == NO_CONTENT || status == RESET_CONTENT ==> "transfer-encoding" !in h)
              && (!IsBodyless(headRequest, status) && |values| == 1 ==> length.value <= limit)
  {
    hide ParseU64, IsVisible;
  }

  /** Why a response head is refused, where it is. */
  lemma HeadRefusalsAreExact(headRequest: bool, status: nat, h: HeaderMap, limit: nat)
    requires ValidateBodyHead(headRequest, status, h, limit).Err?
    ensures var values := Values(h, "content-length");
            ValidateBodyHead(headRequest, status, h, limit).error
            == if "trailer" in h then TrailersUnsupported
               else if |values| > 1 then AmbiguousLength
               else if exists v :: v in values && (!IsVisible(v) || ParseU64(v).None?) then InvalidLength
               else if status == 204 then NoContentFraming
               else if status == 205 then ResetContentFraming
               else LengthOverLimit
  {
    hide ParseU64, IsVisible;
    var values := Values(h, "content-length");
    assert values != [] ==> values[0] in values;
  }

  /** An accepted head's declared length is the one it states. */
  lemma DeclaredLengthIsKept(headRequest: bool, status: nat, h: HeaderMap, limit: nat)
    requires ValidateBodyHead(headRequest, status, h, limit).Ok?
    ensures var values := Values(h, "content-length");
            var length := if |values| == 1 then ParseU64(values[0]) else None;
            ValidateBodyHead(headRequest, status, h, limit).value
            == if headRequest || status == 204 || status == 205 || status == 304 then NoBody(length)
               else StreamingBody(length)
  {
    hide ParseU64, IsVisible;
  }
}
