/** The response heads the guard lets through, as texts: lines joined by CRLF,
    an empty line at the end, and fields with one reading. */
module HeadGrammar {
  import opened Common
  import opened ByteStream
  import opened ResponseHead
  import opened ResponseGuard

  // ---------------------------------------------------------------- lines

  predicate IsText(line: Bytes) { 0x0D !in line && 0x0A !in line }

  /** Lines joined by CRLF. */
  function Text(lines: seq<Bytes>): Bytes
  {
    if lines == [] then []
    else if |lines| == 1 then lines[0]
    else lines[0] + [0x0D, 0x0A] + Text(lines[1..])
  }

  ghost predicate AllText(lines: seq<Bytes>) { forall i :: 0 <= i < |lines| ==> IsText(lines[i]) }

  lemma {:induction false} TextHasNoBareEnding(lines: seq<Bytes>)
    requires AllText(lines)
    ensures forall i :: 0 <= i < |Text(lines)| ==> !BareAt(Text(lines), i)
    decreases |lines|
  {
    if |lines| == 1 {
      assert IsText(lines[0]);
    } else if |lines| > 1 {
      var first, rest, whole := lines[0], Text(lines[1..]), Text(lines);
      assert IsText(first);
      TextHasNoBareEnding(lines[1..]);
      forall i | 0 <= i < |whole| ensures !BareAt(whole, i) {
        var j := i - |first| - 2;
        if j >= 0 {
          assert whole[i] == rest[j] && !BareAt(rest, j);
        }
      }
    }
  }

  /** How far the first line reaches. */
  function LineLength(bytes: Bytes): (n: nat)
    ensures n <= |bytes| && IsText(bytes[..n])
    ensures n < |bytes| ==> bytes[n] == 0x0D || bytes[n] == 0x0A
  {
    if bytes == [] || bytes[0] == 0x0D || bytes[0] == 0x0A then 0
    else
      var n := LineLength(bytes[1..]);
      assert bytes[..n + 1] == [bytes[0]] + bytes[1..][..n];
      n + 1
  }

  lemma {:induction false} LinesOf(bytes: Bytes) returns (lines: seq<Bytes>)
    requires forall i :: 0 <= i < |bytes| ==> !BareAt(bytes, i)
    ensures lines != [] && AllText(lines) && Text(lines) == bytes
    decreases |bytes|
  {
    var n := LineLength(bytes);
    if n == |bytes| {
      assert bytes[..n] == bytes;
      return [bytes];
    }
    assert !BareAt(bytes, n);
    if n > 0 { assert bytes[n - 1] == bytes[..n][n - 1]; }
    assert bytes[n] == 0x0D && bytes[n + 1] == 0x0A;
    var rest := bytes[n + 2..];
    forall j | 0 <= j < |rest| ensures !BareAt(rest, j) {
      assert !BareAt(bytes, n + 2 + j) && rest[j] == bytes[n + 2 + j];
    }
    var later := LinesOf(rest);
    lines := [bytes[..n]] + later;
    assert lines[1..] == later;
    assert bytes == bytes[..n] + [0x0D, 0x0A] + rest;
  }

  /** A head has no bare line ending exactly when it is a list of lines without
      CR and LF, joined by CRLF. */
  lemma BareEndingsAreExact(bytes: Bytes)
    ensures !HasBareLineEnding(bytes) <==> exists lines :: lines != [] && AllText(lines) && Text(lines) == bytes
  {
    if !HasBareLineEnding(bytes) {
      var lines := LinesOf(bytes);
    } else {
      forall lines | lines != [] && AllText(lines) ensures Text(lines) != bytes { TextHasNoBareEnding(lines); }
    }
  }

  // ------------------------------------------------------------ whole heads

  /** A start line, field lines, and the empty line that ends them. */
  function Head(lines: seq<Bytes>): Bytes { Text(lines) + [0x0D, 0x0A, 0x0D, 0x0A] }

  ghost predicate AreHeadLines(lines: seq<Bytes>)
  {
    lines != [] && AllText(lines) && forall i :: 1 <= i < |lines| ==> lines[i] != []
  }

  lemma HeadOfMany(lines: seq<Bytes>)
    requires |lines| > 1
    ensures Head(lines) == lines[0] + [0x0D, 0x0A] + Head(lines[1..])
  {
    assert (lines[0] + [0x0D, 0x0A] + Text(lines[1..])) + [0x0D, 0x0A, 0x0D, 0x0A]
        == lines[0] + [0x0D, 0x0A] + (Text(lines[1..]) + [0x0D, 0x0A, 0x0D, 0x0A]);
  }

  lemma EndsAtMeans(bytes: Bytes, e: nat)
    requires 4 <= e <= |bytes|
    ensures EndsHeadAt(bytes, e) <==>
              bytes[e - 4] == 0x0D && bytes[e - 3] == 0x0A && bytes[e - 2] == 0x0D && bytes[e - 1] == 0x0A
  {
    var window := bytes[e - 4..e];
    assert window[0] == bytes[e - 4] && window[1] == bytes[e - 3] && window[2] == bytes[e - 2]
        && window[3] == bytes[e - 1];
  }

  /** Only the last line of a head is empty, so it ends nowhere earlier. */
  lemma {:induction false} EndsOnlyAtItsEnd(lines: seq<Bytes>, e: nat)
    requires AreHeadLines(lines) && 4 <= e < |Head(lines)|
    ensures !EndsHeadAt(Head(lines), e)
    decreases |lines|
  {
    var head, first := Head(lines), lines[0];
    EndsAtMeans(head, e);
    assert IsText(first);
    assert e - 4 < |first| ==> head[e - 4] == first[e - 4];
    if |lines| > 1 {
      HeadOfMany(lines);
      var rest := Head(lines[1..]);
      assert IsText(lines[1]) && lines[1] != [] && rest[0] == lines[1][0];
      assert head[|first| + 2] == rest[0];
      if e - 4 >= |first| + 2 {
        var f := e - |first| - 2;
        EndsAtMeans(rest, f);
        EndsOnlyAtItsEnd(lines[1..], f);
        assert forall k :: 0 <= k < |rest| ==> head[|first| + 2 + k] == rest[k];
      }
    }
  }

  lemma HeadEndsItself(lines: seq<Bytes>, body: Bytes)
    requires AreHeadLines(lines)
    ensures HeaderEnd(Head(lines) + body) == Some(|Head(lines)|)
  {
    var head := Head(lines);
    HeaderEndIsFirst(head, 4);
    EndsAtMeans(head, |head|);
    forall e: nat | 4 <= e < |head| ensures !EndsHeadAt(head, e) { EndsOnlyAtItsEnd(lines, e); }
    HeaderEndIsStable(head, body);
  }

  lemma {:induction false} EmptyLineEndsEarly(lines: seq<Bytes>, i: nat) returns (e: nat)
    requires 1 <= i < |lines| && lines[i] == []
    ensures 4 <= e < |Head(lines)| && EndsHeadAt(Head(lines), e)
    decreases i
  {
    var head, first := Head(lines), lines[0];
    var rest := Head(lines[1..]);
    HeadOfMany(lines);
    assert forall k :: 0 <= k < |rest| ==> head[|first| + 2 + k] == rest[k];
    if i == 1 {
      e := |first| + 4;
      assert rest[0] == 0x0D && rest[1] == 0x0A && |rest| >= 4 by {
        if |lines| > 2 { HeadOfMany(lines[1..]); }
      }
    } else {
      var f := EmptyLineEndsEarly(lines[1..], i - 1);
      e := f + |first| + 2;
      EndsAtMeans(rest, f);
    }
    EndsAtMeans(head, e);
  }

  /** The head that ends at the first CRLFCRLF, if all its line endings are
      CRLF, is made of such lines. */
  lemma HeadLinesOf(stream: Bytes) returns (lines: seq<Bytes>)
    requires HeaderEnd(stream).Some? && !HasBareLineEnding(stream[..HeaderEnd(stream).value])
    ensures AreHeadLines(lines) && Head(lines) == stream[..HeaderEnd(stream).value]
  {
    var end := HeaderEnd(stream).value;
    var head := stream[..end];
    HeaderEndIsFirst(stream, 4);
    EndsAtMeans(stream, end);
    var above := head[..end - 4];
    forall i | 0 <= i < |above| ensures !BareAt(above, i) { assert !BareAt(head, i); }
    lines := LinesOf(above);
    assert head == above + [0x0D, 0x0A, 0x0D, 0x0A];
    if i :| 1 <= i < |lines| && lines[i] == [] {
      var e := EmptyLineEndsEarly(lines, i);
      EndsAtMeans(head, e);
      EndsAtMeans(stream, e);
      assert false;
    }
  }

  // ---------------------------------------------------------------- framing

  const LENGTH: string := "content-length"
  const ENCODING: string := "transfer-encoding"

  ghost predicate IsFraming(h: Header) { h.name == LENGTH || h.name == ENCODING }

  /** At most one field says where the body ends, in a form that can be read. */
  ghost predicate OneFraming(headers: seq<Header>)
  {
    && (forall i, j :: 0 <= i < j < |headers| ==> !(IsFraming(headers[i]) && IsFraming(headers[j])))
    && (forall i :: 0 <= i < |headers| && headers[i].name == LENGTH ==> IsContentLength(TrimAscii(headers[i].value)))
    && (forall i :: 0 <= i < |headers| && headers[i].name == ENCODING ==>
          EqualIgnoringCase(TrimAscii(headers[i].value), "chunked"))
  }

  lemma {:induction false} ValuesAre(headers: seq<Header>, name: string)
    ensures forall v :: v in Values(headers, name) <==>
              exists i :: 0 <= i < |headers| && headers[i].name == name && headers[i].value == v
    decreases |headers|
  {
    if headers != [] {
      ValuesAre(headers[1..], name);
      assert forall i :: 0 < i < |headers| ==> headers[i] == headers[1..][i - 1];
      forall v ensures v in Values(headers, name) <==>
                         exists i :: 0 <= i < |headers| && headers[i].name == name && headers[i].value == v
      {
        if v in Values(headers[1..], name) {
          var i :| 0 <= i < |headers[1..]| && headers[1..][i].name == name && headers[1..][i].value == v;
          assert headers[i + 1].value == v;
        }
      }
    }
  }

  lemma {:induction false} CountsAre(headers: seq<Header>)
    ensures |Values(headers, LENGTH)| + |Values(headers, ENCODING)| == 0 <==>
              forall i :: 0 <= i < |headers| ==> !IsFraming(headers[i])
    ensures |Values(headers, LENGTH)| + |Values(headers, ENCODING)| <= 1 <==>
              forall i, j :: 0 <= i < j < |headers| ==> !(IsFraming(headers[i]) && IsFraming(headers[j]))
    decreases |headers|
  {
    if headers != [] {
      var rest := headers[1..];
      CountsAre(rest);
      assert LENGTH[0] != ENCODING[0];
      assert forall i :: 0 < i < |headers| ==> headers[i] == rest[i - 1];
      assert forall i :: 0 <= i < |rest| ==> rest[i] == headers[i + 1];
    }
  }

  lemma OneFramingIsExact(headers: seq<Header>)
    ensures OneFraming(headers) <==>
              && |Values(headers, LENGTH)| + |Values(headers, ENCODING)| <= 1
              && (forall v :: v in Values(headers, LENGTH) ==> IsContentLength(TrimAscii(v)))
              && (forall v :: v in Values(headers, ENCODING) ==> EqualIgnoringCase(TrimAscii(v), "chunked"))
  {
    hide IsContentLength, TrimAscii, EqualIgnoringCase, Values;
    CountsAre(headers);
    ValuesAre(headers, LENGTH);
    ValuesAre(headers, ENCODING);
    assert forall i :: 0 <= i < |headers| && headers[i].name == LENGTH ==> headers[i].value in Values(headers, LENGTH);
    assert forall i :: 0 <= i < |headers| && headers[i].name == ENCODING ==>
             headers[i].value in Values(headers, ENCODING);
  }

  // ------------------------------------------------------------ acceptance

  /** What the HTTP parser must have read in a complete head. */
  ghost predicate Admissible(parsed: Option<ParsedHead>, length: nat, allowSwitching: bool)
  {
    && parsed.Some? && parsed.value.length == length && parsed.value.version == 1
    && (200 <= parsed.value.code <= 599 || (parsed.value.code == 101 && allowSwitching))
    && OneFraming(parsed.value.headers)
  }

  ghost predicate Welcome(
      max: nat, allowSwitching: bool, parse: Bytes -> Option<ParsedHead>, stream: Bytes, lines: seq<Bytes>)
  {
    && AreHeadLines(lines) && Head(lines) <= stream && |Head(lines)| <= max
    && Admissible(parse(Head(lines)), |Head(lines)|, allowSwitching)
  }

  lemma AdmissibleIsFaultless(parse: Bytes -> Option<ParsedHead>, allowSwitching: bool, head: Bytes)
    ensures Fault(parse, allowSwitching, head).None? <==>
              !HasBareLineEnding(head) && Admissible(parse(head), |head|, allowSwitching)
  {
    hide Values, IsContentLength, TrimAscii, EqualIgnoringCase, HasBareLineEnding, OneFraming;
    FaultlessIsUnambiguous(parse, allowSwitching, head);
    if parse(head).Some? { OneFramingIsExact(parse(head).value.headers); }
  }

  /** Main result: a stream is accepted exactly when it begins with a head of
      CRLF lines within the limit that the parser reads whole, with an allowed
      status and one framing. */
  lemma AcceptedStreamsAreExact(
      max: nat, allowSwitching: bool, parse: Bytes -> Option<ParsedHead>, stream: Bytes)
    ensures Judge(Configured(max, allowSwitching, parse), stream) == Accept <==>
              exists lines :: Welcome(max, allowSwitching, parse, stream, lines)
  {
    hide Fault, HeaderEnd, HasBareLineEnding, Admissible;
    var c := Configured(max, allowSwitching, parse);
    if Judge(c, stream) == Accept {
      var head := stream[..HeaderEnd(stream).value];
      AdmissibleIsFaultless(parse, allowSwitching, head);
      var lines := HeadLinesOf(stream);
      assert Welcome(max, allowSwitching, parse, stream, lines);
    }
    if lines :| Welcome(max, allowSwitching, parse, stream, lines) {
      var head := Head(lines);
      var body := stream[|head|..];
      assert stream == head + body && stream[..|head|] == head;
      HeadEndsItself(lines, body);
      AdmissibleIsFaultless(parse, allowSwitching, head);
      HeadHasNoBareEnding(lines);
    }
  }

  lemma HeadHasNoBareEnding(lines: seq<Bytes>)
    requires AreHeadLines(lines)
    ensures !HasBareLineEnding(Head(lines))
  {
    var empty: Bytes := [];
    TextGrows(lines, empty);
    TextGrows(lines + [empty], empty);
    var all := lines + [empty] + [empty];
    assert Head(lines) == Text(all);
    BareEndingsAreExact(Head(lines));
  }

  lemma {:induction false} TextGrows(lines: seq<Bytes>, line: Bytes)
    requires lines != []
    ensures Text(lines + [line]) == Text(lines) + [0x0D, 0x0A] + line
    decreases |lines|
  {
    var more := lines + [line];
    assert more[1..] == lines[1..] + [line];
    if |lines| == 1 {
      assert more[1..] == [line];
    } else {
      TextGrows(lines[1..], line);
      assert Text(more) == lines[0] + [0x0D, 0x0A] + (Text(lines[1..]) + [0x0D, 0x0A] + line);
    }
  }

  // ---------------------------------------------------- the field values

  ghost predicate AllBlank(s: Bytes) { forall i :: 0 <= i < |s| ==> s[i] in {0x09, 0x0A, 0x0C, 0x0D, 0x20} }

  /** ASCII blanks around a value do not matter. */
  lemma {:induction false} PaddingIsTrimmed(before: Bytes, value: Bytes, after: Bytes)
    requires AllBlank(before) && AllBlank(after)
    requires value != [] ==> {value[0], value[|value| - 1]} !! {0x09, 0x0A, 0x0C, 0x0D, 0x20}
    ensures TrimAscii(before + value + after) == value
    decreases |before| + |after|
  {
    var whole := before + value + after;
    if before != [] {
      assert whole[0] == before[0] && whole[1..] == before[1..] + value + after;
      PaddingIsTrimmed(before[1..], value, after);
    } else if after != [] {
      assert whole[|whole| - 1] == after[|after| - 1];
      if value == [] {
        assert whole == after && whole[1..] == [] + [] + after[1..];
        PaddingIsTrimmed([], [], after[1..]);
      } else {
        assert whole[0] == value[0];
        var shorter := after[..|after| - 1];
        assert whole[..|whole| - 1] == [] + value + shorter;
        PaddingIsTrimmed([], value, shorter);
      }
    } else {
      assert whole == value;
    }
  }

  /** A length is a string of digits whose number, place by place, has 64 bits. */
  lemma LengthsAreByPlace(s: Bytes)
    ensures IsContentLength(s) <==>
              && s != []
              && (forall i :: 0 <= i < |s| ==>
                    s[i] in {0x30, 0x31, 0x32, 0x33, 0x34, 0x35, 0x36, 0x37, 0x38, 0x39})
              && ByPlace(seq(|s|, i requires 0 <= i < |s| => Max(s[i] - 0x30, 0))) <= 0xFFFF_FFFF_FFFF_FFFF
  {
    if AreDigits(s) {
      var digits := seq(|s|, i requires 0 <= i < |s| => Max(s[i] - 0x30, 0));
      assert Digits(s) == digits;
      DecimalIsByPlace(digits);
    }
  }

  /** Letter case does not matter in `chunked`. */
  lemma ChunkedInAnyCase(s: Bytes)
    ensures EqualIgnoringCase(s, "chunked") <==>
              && |s| == 7
              && s[0] in {0x43, 0x63} && s[1] in {0x48, 0x68} && s[2] in {0x55, 0x75} && s[3] in {0x4E, 0x6E}
              && s[4] in {0x4B, 0x6B} && s[5] in {0x45, 0x65} && s[6] in {0x44, 0x64}
  {
    var text := "chunked";
    assert text[0] == 'c' && text[1] == 'h' && text[2] == 'u' && text[3] == 'n' && text[4] == 'k' && text[5] == 'e'
        && text[6] == 'd';
  }
}
