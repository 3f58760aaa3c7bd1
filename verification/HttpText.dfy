/** Field-value text, one `char` per byte: splitting, trimming, joining. */
module HttpText {
  import opened Common

  /** What HeaderValue::to_str accepts. */
  predicate IsVisible(s: string) { forall i :: 0 <= i < |s| ==> s[i] == '\t' || ' ' <= s[i] <= '~' }

  predicate IsBlank(c: char) { c == ' ' || '\t' <= c <= '\r' }

  predicate IsAlphanumeric(c: char) { '0' <= c <= '9' || 'A' <= c <= 'Z' || 'a' <= c <= 'z' }

  predicate IsTokenChar(c: char) { IsAlphanumeric(c) || c in "!#$%&'*+-.^_`|~" }

  predicate IsToken(s: string) { s != [] && forall i :: 0 <= i < |s| ==> IsTokenChar(s[i]) }

  function LowerChar(c: char): char { if 'A' <= c <= 'Z' then c + ' ' else c }

  function Lower(s: string): (r: string)
    ensures |r| == |s|
  {
    seq(|s|, i requires 0 <= i < |s| => LowerChar(s[i]))
  }

  function TrimLeft(s: string): string
  {
    if s != [] && IsBlank(s[0]) then TrimLeft(s[1..]) else s
  }

  function TrimRight(s: string): string
  {
    if s != [] && IsBlank(s[|s| - 1]) then TrimRight(s[..|s| - 1]) else s
  }

  function Trim(s: string): string { TrimRight(TrimLeft(s)) }

  predicate IsTrimmed(s: string) { s != [] ==> !IsBlank(s[0]) && !IsBlank(s[|s| - 1]) }

  predicate AllBlank(s: string) { forall i :: 0 <= i < |s| ==> IsBlank(s[i]) }

  function OntoFirst(c: char, parts: seq<string>): seq<string>
    requires parts != []
  {
    [[c] + parts[0]] + parts[1..]
  }

  /** Always at least one part, as str::split yields. */
  function Split(s: string, separator: char): (parts: seq<string>)
    ensures parts != []
  {
    if s == [] then [[]]
    else
      var rest := Split(s[1..], separator);
      if s[0] == separator then [[]] + rest else OntoFirst(s[0], rest)
  }

  function Join(parts: seq<string>, glue: string): string
  {
    if parts == [] then []
    else if |parts| == 1 then parts[0]
    else parts[0] + glue + Join(parts[1..], glue)
  }

  /** The text before the first occurrence, or all of it. */
  function Until(s: string, stop: char): (r: string)
    ensures |r| <= |s| && r == s[..|r|] && (|r| < |s| ==> s[|r|] == stop) && stop !in r
  {
    if s == [] || s[0] == stop then [] else [s[0]] + Until(s[1..], stop)
  }

  function TrimAll(parts: seq<string>): (r: seq<string>)
    ensures |r| == |parts|
    ensures forall i :: 0 <= i < |r| ==> r[i] == Trim(parts[i])
  {
    seq(|parts|, i requires 0 <= i < |parts| => Trim(parts[i]))
  }

  // ------------------------------------------------------------------ facts

  lemma {:induction false} TrimLeftFacts(s: string)
    ensures TrimLeft(s) != [] ==> !IsBlank(TrimLeft(s)[0])
    ensures |TrimLeft(s)| <= |s| && TrimLeft(s) == s[|s| - |TrimLeft(s)|..]
    ensures s == [] || !IsBlank(s[0]) ==> TrimLeft(s) == s
    decreases |s|
  {
    if s != [] && IsBlank(s[0]) { TrimLeftFacts(s[1..]); }
  }

  lemma {:induction false} TrimRightFacts(s: string)
    ensures TrimRight(s) != [] ==> !IsBlank(TrimRight(s)[|TrimRight(s)| - 1])
    ensures TrimRight(s) <= s
    ensures s == [] || !IsBlank(s[|s| - 1]) ==> TrimRight(s) == s
    decreases |s|
  {
    if s != [] && IsBlank(s[|s| - 1]) { TrimRightFacts(s[..|s| - 1]); }
  }

  lemma TrimFacts(s: string)
    ensures IsTrimmed(Trim(s))
    ensures forall c :: c in Trim(s) ==> c in s
    ensures IsTrimmed(s) ==> Trim(s) == s
  {
    TrimLeftFacts(s);
    TrimRightFacts(TrimLeft(s));
  }

  lemma {:induction false} TrimIgnoresPadding(pad: string, s: string)
    requires AllBlank(pad)
    ensures Trim(pad + s) == Trim(s)
    decreases |pad|
  {
    if pad == [] {
      assert pad + s == s;
    } else {
      assert (pad + s)[1..] == pad[1..] + s;
      assert TrimLeft(pad + s) == TrimLeft(pad[1..] + s);
      TrimIgnoresPadding(pad[1..], s);
    }
  }

  lemma {:induction false} SplitHasNoSeparator(s: string, separator: char, i: nat)
    requires i < |Split(s, separator)|
    ensures separator !in Split(s, separator)[i]
    ensures forall c :: c in Split(s, separator)[i] ==> c in s
    decreases |s|
  {
    if s != [] {
      var rest := Split(s[1..], separator);
      assert forall c :: c in s[1..] ==> c in s;
      if s[0] == separator {
        if i > 0 { SplitHasNoSeparator(s[1..], separator, i - 1); }
      } else {
        SplitHasNoSeparator(s[1..], separator, i);
        assert s[0] in s;
        assert i > 0 ==> Split(s, separator)[i] == rest[i];
      }
    }
  }

  lemma OntoFirstConcat(c: char, a: seq<string>, b: seq<string>)
    requires a != []
    ensures OntoFirst(c, a + b) == OntoFirst(c, a) + b
  {
    assert (a + b)[1..] == a[1..] + b;
  }

  lemma {:induction false} SplitAtSeparator(a: string, b: string, separator: char)
    ensures Split(a + [separator] + b, separator) == Split(a, separator) + Split(b, separator)
    decreases |a|
  {
    var whole := a + [separator] + b;
    if a == [] {
      assert whole[1..] == b;
    } else {
      assert whole[1..] == a[1..] + [separator] + b;
      SplitAtSeparator(a[1..], b, separator);
      var ra, rb := Split(a[1..], separator), Split(b, separator);
      if a[0] == separator {
        assert [[]] + (ra + rb) == ([[]] + ra) + rb;
      } else {
        OntoFirstConcat(a[0], ra, rb);
      }
    }
  }

  lemma {:induction false} SplitOfWhole(s: string, separator: char)
    requires separator !in s
    ensures Split(s, separator) == [s]
    decreases |s|
  {
    if s != [] {
      SplitOfWhole(s[1..], separator);
      assert [s[0]] + s[1..] == s;
    }
  }

  lemma {:induction false} SplitPadded(pad: string, s: string, separator: char)
    requires separator !in pad
    ensures var parts := Split(s, separator);
            Split(pad + s, separator) == [pad + parts[0]] + parts[1..]
    decreases |pad|
  {
    var parts := Split(s, separator);
    if pad == [] {
      assert pad + s == s && pad + parts[0] == parts[0];
    } else {
      assert (pad + s)[1..] == pad[1..] + s;
      SplitPadded(pad[1..], s, separator);
      assert [pad[0]] + (pad[1..] + parts[0]) == pad + parts[0];
    }
  }

  /** Joining trimmed, separator-free parts with a separator and padding is
      undone by splitting and trimming. */
  lemma {:induction false} JoinedReadsBack(parts: seq<string>, separator: char, pad: string)
    requires parts != [] && AllBlank(pad) && separator !in pad
    requires forall i :: 0 <= i < |parts| ==> separator !in parts[i] && IsTrimmed(parts[i])
    ensures TrimAll(Split(Join(parts, [separator] + pad), separator)) == parts
    decreases |parts|
  {
    hide Split, Trim, IsTrimmed;
    TrimFacts(parts[0]);
    if |parts| == 1 {
      SplitOfWhole(parts[0], separator);
    } else {
      var later := Join(parts[1..], [separator] + pad);
      JoinedReadsBack(parts[1..], separator, pad);
      assert Join(parts, [separator] + pad) == parts[0] + [separator] + (pad + later);
      SplitAtSeparator(parts[0], pad + later, separator);
      SplitOfWhole(parts[0], separator);
      SplitPadded(pad, later, separator);
      var rest := Split(later, separator);
      TrimIgnoresPadding(pad, rest[0]);
      var read := TrimAll(Split(Join(parts, [separator] + pad), separator));
      forall i | 0 <= i < |parts| ensures i < |read| && read[i] == parts[i] {
        if i > 0 { assert parts[i] == parts[1..][i - 1] == TrimAll(rest)[i - 1]; }
      }
    }
  }

  lemma {:induction false} JoinIsVisible(parts: seq<string>, glue: string)
    requires IsVisible(glue) && forall i :: 0 <= i < |parts| ==> IsVisible(parts[i])
    ensures IsVisible(Join(parts, glue))
    decreases |parts|
  {
    if |parts| > 1 { JoinIsVisible(parts[1..], glue); }
  }

  // ------------------------------------------------------- parts of a whole

  lemma {:induction false} FirstPart(s: string, separator: char)
    ensures var parts := Split(s, separator);
            && parts[0] <= s
            && (|parts| == 1 ==> s == parts[0])
            && (|parts| > 1 ==>
                  && |parts[0]| < |s| && s[|parts[0]|] == separator
                  && Split(s[|parts[0]| + 1..], separator) == parts[1..])
    decreases |s|
  {
    if s != [] {
      FirstPart(s[1..], separator);
      var rest := Split(s[1..], separator);
      if s[0] != separator && |rest| > 1 {
        assert s[|rest[0]| + 2..] == s[1..][|rest[0]| + 1..];
      }
    }
  }

  /** `part` stands in `s` between separators or the ends. */
  ghost predicate StandsIn(part: string, s: string, separator: char, before: string, after: string)
  {
    && s == before + part + after && separator !in part
    && (before == [] || before[|before| - 1] == separator)
    && (after == [] || after[0] == separator)
  }

  lemma {:induction false} PartStands(s: string, separator: char, i: nat) returns (before: string, after: string)
    requires i < |Split(s, separator)|
    ensures StandsIn(Split(s, separator)[i], s, separator, before, after)
    decreases i
  {
    hide Split;
    var parts := Split(s, separator);
    FirstPart(s, separator);
    SplitHasNoSeparator(s, separator, i);
    var n := |parts[0]|;
    if i == 0 {
      before, after := [], s[n..];
    } else {
      hide StandsIn;
      var rest := s[n + 1..];
      before, after := PartStands(rest, separator, i - 1);
      assert s == parts[0] + [separator] + rest;
      StandsLater(parts[i], rest, separator, before, after, parts[0]);
      before := parts[0] + [separator] + before;
    }
  }

  lemma StandsLater(part: string, s: string, separator: char, before: string, after: string, first: string)
    requires StandsIn(part, s, separator, before, after)
    ensures StandsIn(part, first + [separator] + s, separator, first + [separator] + before, after)
  {
    assert first + [separator] + (before + part + after) == (first + [separator] + before) + part + after;
  }

  lemma StandingIsPart(part: string, s: string, separator: char, before: string, after: string)
    requires StandsIn(part, s, separator, before, after)
    ensures part in Split(s, separator)
  {
    SplitOfWhole(part, separator);
    var tail := part + after;
    assert part in Split(tail, separator) by {
      if after == [] {
        assert tail == part;
      } else {
        assert tail == part + [separator] + after[1..];
        SplitAtSeparator(part, after[1..], separator);
      }
    }
    if before == [] {
      assert s == tail;
    } else {
      var above := before[..|before| - 1];
      assert s == above + [separator] + tail;
      SplitAtSeparator(above, tail, separator);
    }
  }

  /** The parts of a text are exactly what stands between its separators. */
  lemma PartsAreExact(part: string, s: string, separator: char)
    ensures part in Split(s, separator) <==> exists before, after :: StandsIn(part, s, separator, before, after)
  {
    hide StandsIn;
    if part in Split(s, separator) {
      var i :| 0 <= i < |Split(s, separator)| && Split(s, separator)[i] == part;
      var before, after := PartStands(s, separator, i);
    }
    if before, after :| StandsIn(part, s, separator, before, after) {
      StandingIsPart(part, s, separator, before, after);
    }
  }

  // -------------------------------------------------------------- characters

  const UPPER: string := "ABCDEFGHIJKLMNOPQRSTUVWXYZ"
  const LOWER: string := "abcdefghijklmnopqrstuvwxyz"

  /** Capital letters become small ones and nothing else changes. */
  lemma LettersAreLowered(c: char)
    ensures forall k :: 0 <= k < 26 ==> LowerChar(UPPER[k]) == LOWER[k]
    ensures c !in UPPER ==> LowerChar(c) == c
  {
    assert forall k :: 0 <= k < 26 ==> UPPER[k] as int == 65 + k && LOWER[k] as int == 97 + k;
    if 'A' <= c <= 'Z' { assert c == UPPER[c as int - 65]; }
  }

  const PUNCTUATION: string := "!#$%&'*+-.^_`|~"

  /** The token characters of section 5.6.2 of RFC 9110. */
  lemma TokenCharactersAre(c: char)
    ensures IsTokenChar(c) <==> c in UPPER || c in LOWER || c in "0123456789" || c in PUNCTUATION
  {
    assert forall k :: 0 <= k < 26 ==> UPPER[k] as int == 65 + k && LOWER[k] as int == 97 + k;
    if 'A' <= c <= 'Z' { assert c == UPPER[c as int - 65]; }
    if 'a' <= c <= 'z' { assert c == LOWER[c as int - 97]; }
    assert forall k :: 0 <= k < 10 ==> "0123456789"[k] as int == 48 + k;
    if '0' <= c <= '9' { assert c == "0123456789"[c as int - 48]; }
  }

  lemma VisibleAndBlankAre(c: char)
    ensures IsVisible([c]) <==> c as int == 9 || 32 <= c as int <= 126
    ensures IsBlank(c) <==> c as int in {9, 10, 11, 12, 13, 32}
  {
    assert [c][0] == c;
  }

  lemma {:induction false} TrimIgnoresTrailing(s: string, pad: string)
    requires AllBlank(pad) && IsTrimmed(s)
    ensures TrimRight(s + pad) == s
    decreases |pad|
  {
    if pad == [] {
      assert s + pad == s;
      TrimRightFacts(s);
    } else {
      var shorter := pad[..|pad| - 1];
      assert (s + pad)[..|s + pad| - 1] == s + shorter;
      TrimIgnoresTrailing(s, shorter);
    }
  }

  /** Trimming takes off exactly the blanks at both ends. */
  lemma TrimIsExact(before: string, s: string, after: string)
    requires AllBlank(before) && AllBlank(after) && s != [] && IsTrimmed(s)
    ensures Trim(before + s + after) == s
  {
    hide TrimRight;
    assert before + s + after == before + (s + after);
    TrimIgnoresPadding(before, s + after);
    TrimLeftFacts(s + after);
    TrimIgnoresTrailing(s, after);
  }
}
