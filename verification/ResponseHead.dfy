/** Where a response head ends and what is wrong with it. */
module ResponseHead {
  import opened Common
  import opened ByteStream

  const CR: Byte := 0x0D
  const LF: Byte := 0x0A
  const HEAD_END: Bytes := [CR, LF, CR, LF]

  ghost predicate EndsHeadAt(bytes: Bytes, end: nat)
  {
    4 <= end <= |bytes| && bytes[end - 4..end] == HEAD_END
  }

  /** The end of the first CRLFCRLF. */
  function HeaderEnd(bytes: Bytes): (end: Option<nat>)
    ensures end.Some? ==> 4 <= end.value <= |bytes|
  {
    HeaderEndFrom(bytes, 4)
  }

  function HeaderEndFrom(bytes: Bytes, from: nat): (end: Option<nat>)
    requires from >= 4
    ensures end.Some? ==> from <= end.value <= |bytes|
    decreases |bytes| + 1 - from
  {
    if from > |bytes| then None
    else if bytes[from - 4..from] == HEAD_END then Some(from)
    else HeaderEndFrom(bytes, from + 1)
  }

  lemma {:induction false} HeaderEndIsFirst(bytes: Bytes, from: nat)
    requires from >= 4
    ensures var end := HeaderEndFrom(bytes, from);
            && (end.Some? ==> end.value >= from && EndsHeadAt(bytes, end.value))
            && (forall e: nat :: from <= e && (end.Some? ==> e < end.value) ==> !EndsHeadAt(bytes, e))
    decreases |bytes| + 1 - from
  {
    if from <= |bytes| && bytes[from - 4..from] != HEAD_END { HeaderEndIsFirst(bytes, from + 1); }
  }

  /** More bytes never move the end of a head that is already complete, and
      never complete one inside bytes already seen. */
  lemma HeaderEndIsStable(seen: Bytes, more: Bytes)
    ensures HeaderEnd(seen).Some? ==>
              4 <= HeaderEnd(seen).value <= |seen| && HeaderEnd(seen + more) == HeaderEnd(seen)
    ensures HeaderEnd(seen).None? && HeaderEnd(seen + more).Some? ==>
              |seen| < HeaderEnd(seen + more).value <= |seen + more|
  {
    HeaderEndIsFirst(seen, 4);
    HeaderEndIsFirst(seen + more, 4);
    forall e: nat | e <= |seen|
      ensures EndsHeadAt(seen, e) <==> EndsHeadAt(seen + more, e)
    {
      if 4 <= e { assert (seen + more)[e - 4..e] == seen[e - 4..e]; }
    }
  }

  predicate BareAt(bytes: Bytes, i: nat)
    requires i < |bytes|
  {
    || (bytes[i] == LF && (i == 0 || bytes[i - 1] != CR))
    || (bytes[i] == CR && (i + 1 == |bytes| || bytes[i + 1] != LF))
  }

  predicate HasBareLineEnding(bytes: Bytes) { exists i :: 0 <= i < |bytes| && BareAt(bytes, i) }

  /** A field as the HTTP parser reports it, with its name in lower case. */
  datatype Header = Header(name: string, value: Bytes)

  datatype ParsedHead = ParsedHead(length: nat, version: nat, code: nat, headers: seq<Header>)

  datatype HeadFault =
    | BareLineEnding | MalformedHead | InvalidStatus | AmbiguousFraming
    | MalformedLength | UnsupportedTransferEncoding

  function Values(headers: seq<Header>, name: string): seq<Bytes>
  {
    if headers == [] then []
    else (if headers[0].name == name then [headers[0].value] else []) + Values(headers[1..], name)
  }

  predicate IsAsciiBlank(b: Byte) { b in {0x09, 0x0A, 0x0C, 0x0D, 0x20} }

  function TrimAscii(s: Bytes): Bytes
    decreases |s|
  {
    if s == [] then []
    else if IsAsciiBlank(s[0]) then TrimAscii(s[1..])
    else if IsAsciiBlank(s[|s| - 1]) then TrimAscii(s[..|s| - 1])
    else s
  }

  predicate IsDigit(b: Byte) { 0x30 <= b <= 0x39 }

  predicate AreDigits(s: Bytes) { s != [] && forall i :: 0 <= i < |s| ==> IsDigit(s[i]) }

  function Digits(s: Bytes): seq<nat>
    requires AreDigits(s)
  {
    seq(|s|, i requires 0 <= i < |s| => var b: int := s[i]; b - 0x30)
  }

  predicate IsContentLength(s: Bytes) { AreDigits(s) && Decimal(Digits(s)) <= U64_MAX }

  function LowerByte(b: Byte): Byte { if 0x41 <= b <= 0x5A then b + 0x20 else b }

  predicate EqualIgnoringCase(s: Bytes, text: string)
  {
    |s| == |text| && forall i :: 0 <= i < |s| ==> LowerByte(s[i]) as char == text[i]
  }

  /** `parse` stands for the HTTP library's head parser. */
  function Fault(parse: Bytes -> Option<ParsedHead>, allowSwitching: bool, head: Bytes): Option<HeadFault>
  {
    if HasBareLineEnding(head) then Some(BareLineEnding)
    else match parse(head)
      case None => Some(MalformedHead)
      case Some(parsed) =>
        var lengths := Values(parsed.headers, "content-length");
        var encodings := Values(parsed.headers, "transfer-encoding");
        if parsed.length != |head| || parsed.version != 1
          || !(200 <= parsed.code <= 599 || (parsed.code == 101 && allowSwitching))
        then Some(InvalidStatus)
        else if |lengths| > 1 || |encodings| > 1 || (lengths != [] && encodings != [])
        then Some(AmbiguousFraming)
        else if lengths != [] && !IsContentLength(TrimAscii(lengths[0])) then Some(MalformedLength)
        else if encodings != [] && !EqualIgnoringCase(TrimAscii(encodings[0]), "chunked")
        then Some(UnsupportedTransferEncoding)
        else None
  }
}
