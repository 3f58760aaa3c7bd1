/** Content-Encoding lists and the decoders they stack. */
module ContentCodings {
  import opened Common
  import opened HttpText

  datatype Coding = Gzip | Deflate | Brotli | Zstd

  datatype CodingError = InvalidList | Unsupported | TooManyLayers

  /** A token: `Ok(None)` is the identity coding. */
  function ReadToken(part: string): Result<Option<Coding>, CodingError>
  {
    var token := Trim(part);
    if !IsToken(token) then Err(InvalidList)
    else
      var name := Lower(token);
      if name == "identity" then Ok(None)
      else if name == "gzip" || name == "x-gzip" then Ok(Some(Gzip))
      else if name == "deflate" then Ok(Some(Deflate))
      else if name == "br" then Ok(Some(Brotli))
      else if name == "zstd" then Ok(Some(Zstd))
      else Err(Unsupported)
  }

  type Layers = Result<seq<Coding>, CodingError>

  function ReadTokens(parts: seq<string>, limit: nat, codings: seq<Coding>): Layers
    decreases |parts|
  {
    if parts == [] then Ok(codings)
    else match ReadToken(parts[0])
      case Err(error) => Err(error)
      case Ok(None) => ReadTokens(parts[1..], limit, codings)
      case Ok(Some(coding)) =>
        if |codings| + 1 > limit then Err(TooManyLayers)
        else ReadTokens(parts[1..], limit, codings + [coding])
  }

  function ReadFields(fields: seq<string>, limit: nat, codings: seq<Coding>): Layers
    decreases |fields|
  {
    if fields == [] then Ok(codings)
    else if !IsVisible(fields[0]) then Err(InvalidList)
    else match ReadTokens(Split(fields[0], ','), limit, codings)
      case Err(error) => Err(error)
      case Ok(more) => ReadFields(fields[1..], limit, more)
  }

  method ParseContentCodings(fields: seq<string>, limit: nat) returns (r: Layers)
    ensures r == ReadFields(fields, limit, [])
  {
    var codings := [];
    for i := 0 to |fields|
      invariant ReadFields(fields[i..], limit, codings) == ReadFields(fields, limit, [])
    {
      assert fields[i..][1..] == fields[i + 1..];
      if !IsVisible(fields[i]) { return Err(InvalidList); }
      var parts := Split(fields[i], ',');
      ghost var before := codings;
      for j := 0 to |parts|
        invariant ReadTokens(parts[j..], limit, codings) == ReadTokens(parts, limit, before)
      {
        assert parts[j..][1..] == parts[j + 1..];
        var token := ReadToken(parts[j]);
        match token {
          case Err(error) => return Err(error);
          case Ok(None) =>
          case Ok(Some(coding)) =>
            codings := codings + [coding];
            if |codings| > limit { return Err(TooManyLayers); }
        }
      }
    }
    return Ok(codings);
  }

  // -------------------------------------------- several fields are one list

  lemma {:induction false} TokensConcat(a: seq<string>, b: seq<string>, limit: nat, codings: seq<Coding>)
    ensures ReadTokens(a + b, limit, codings)
         == (match ReadTokens(a, limit, codings)
             case Err(error) => Err(error)
             case Ok(more) => ReadTokens(b, limit, more))
    decreases |a|
  {
    if a == [] {
      assert a + b == b;
    } else {
      assert (a + b)[1..] == a[1..] + b && (a + b)[0] == a[0];
      match ReadToken(a[0]) {
        case Err(_) =>
        case Ok(None) => TokensConcat(a[1..], b, limit, codings);
        case Ok(Some(coding)) =>
          if |codings| < limit { TokensConcat(a[1..], b, limit, codings + [coding]); }
      }
    }
  }

  lemma PaddingIsIgnored(pad: string, s: string, limit: nat, codings: seq<Coding>)
    requires AllBlank(pad)
    ensures ReadTokens(Split(pad + s, ','), limit, codings) == ReadTokens(Split(s, ','), limit, codings)
  {
    var parts := Split(s, ',');
    assert !IsBlank(',') && ',' !in pad;
    SplitPadded(pad, s, ',');
    TrimIgnoresPadding(pad, parts[0]);
    SameFirstToken(pad + parts[0], parts[0], parts[1..], limit, codings);
    assert [parts[0]] + parts[1..] == parts;
  }

  lemma SameFirstToken(a: string, b: string, rest: seq<string>, limit: nat, codings: seq<Coding>)
    requires Trim(a) == Trim(b)
    ensures ReadTokens([a] + rest, limit, codings) == ReadTokens([b] + rest, limit, codings)
  {
    assert ReadToken(a) == ReadToken(b);
    assert ([a] + rest)[1..] == rest && ([b] + rest)[1..] == rest;
  }

  lemma {:induction false} FieldsAreOneList(fields: seq<string>, pad: string, limit: nat, codings: seq<Coding>)
    requires fields != [] && AllBlank(pad)
    requires forall i :: 0 <= i < |fields| ==> IsVisible(fields[i])
    ensures ReadTokens(Split(Join(fields, [','] + pad), ','), limit, codings) == ReadFields(fields, limit, codings)
    decreases |fields|
  {
    if |fields| == 1 {
      var r := ReadTokens(Split(fields[0], ','), limit, codings);
      assert r.Ok? ==> ReadFields(fields[1..], limit, r.value) == r;
    } else {
      var later := Join(fields[1..], [','] + pad);
      assert Join(fields, [','] + pad) == fields[0] + [','] + (pad + later);
      SplitAtSeparator(fields[0], pad + later, ',');
      TokensConcat(Split(fields[0], ','), Split(pad + later, ','), limit, codings);
      var r := ReadTokens(Split(fields[0], ','), limit, codings);
      if r.Ok? {
        PaddingIsIgnored(pad, later, limit, r.value);
        FieldsAreOneList(fields[1..], pad, limit, r.value);
      }
    }
  }

  lemma {:induction false} InvisibleFieldFails(fields: seq<string>, limit: nat, codings: seq<Coding>, i: nat)
    requires i < |fields| && !IsVisible(fields[i])
    ensures ReadFields(fields, limit, codings).Err?
    decreases |fields|
  {
    if IsVisible(fields[0]) {
      var r := ReadTokens(Split(fields[0], ','), limit, codings);
      if r.Ok? { InvisibleFieldFails(fields[1..], limit, r.value, i - 1); }
    }
  }

  lemma {:induction false} InvisibleFieldStays(fields: seq<string>, glue: string, i: nat)
    requires i < |fields| && !IsVisible(fields[i])
    ensures !IsVisible(Join(fields, glue))
    decreases |fields|
  {
    var k :| 0 <= k < |fields[i]| && !(fields[i][k] == '\t' || ' ' <= fields[i][k] <= '~');
    if |fields| > 1 {
      var later := Join(fields[1..], glue);
      var whole := Join(fields, glue);
      if i == 0 {
        assert whole[k] == fields[0][k];
      } else {
        InvisibleFieldStays(fields[1..], glue, i - 1);
        var m :| 0 <= m < |later| && !(later[m] == '\t' || ' ' <= later[m] <= '~');
        assert whole[|fields[0]| + |glue| + m] == later[m];
      }
    }
  }

  /** Main result (section 5.3 of RFC 9110): several fields are accepted, with
      the same layers, exactly when the one comma-joined field is. */
  lemma FieldOrderIsOneList(fields: seq<string>, pad: string, limit: nat)
    requires fields != [] && AllBlank(pad) && IsVisible(pad)
    ensures var many := ReadFields(fields, limit, []);
            var one := ReadFields([Join(fields, [','] + pad)], limit, []);
            (many.Ok? <==> one.Ok?) && (many.Ok? ==> many == one)
  {
    var joined := Join(fields, [','] + pad);
    if i :| 0 <= i < |fields| && !IsVisible(fields[i]) {
      InvisibleFieldFails(fields, limit, [], i);
      InvisibleFieldStays(fields, [','] + pad, i);
    } else {
      JoinIsVisible(fields, [','] + pad);
      FieldsAreOneList(fields, pad, limit, []);
      FieldsAreOneList([joined], pad, limit, []);
    }
  }

  lemma {:induction false} TokensWithinLimit(parts: seq<string>, limit: nat, codings: seq<Coding>)
    requires |codings| <= limit
    ensures var r := ReadTokens(parts, limit, codings); r.Ok? ==> |r.value| <= limit
    decreases |parts|
  {
    if parts != [] {
      match ReadToken(parts[0]) {
        case Err(_) =>
        case Ok(None) => TokensWithinLimit(parts[1..], limit, codings);
        case Ok(Some(coding)) => if |codings| < limit { TokensWithinLimit(parts[1..], limit, codings + [coding]); }
      }
    }
  }

  /** The names the codings are registered under. */
  function RegisteredName(coding: Coding): string
  {
    match coding
    case Gzip => "gzip"
    case Deflate => "deflate"
    case Brotli => "br"
    case Zstd => "zstd"
  }

  /** A token means a coding exactly when it is that coding's name, or the
      historical x-gzip, in any case and padding. */
  lemma TokensMeanRegisteredCodings(part: string, coding: Coding)
    ensures ReadToken(part) == Ok(Some(coding)) <==>
              && IsToken(Trim(part))
              && (Lower(Trim(part)) == RegisteredName(coding) || (coding == Gzip && Lower(Trim(part)) == "x-gzip"))
  {
    hide Trim, IsToken, Lower;
    var name := Lower(Trim(part));
    assert "gzip"[0] == 'g' && "deflate"[0] == 'd' && "br"[0] == 'b' && "zstd"[0] == 'z' && "x-gzip"[0] == 'x'
        && "identity"[0] == 'i';
  }

  /** The layers a list names, identity left out. */
  function Named(parts: seq<string>): seq<Coding>
  {
    if parts == [] then []
    else
      var token := ReadToken(parts[0]);
      (if token.Ok? && token.value.Some? then [token.value.value] else []) + Named(parts[1..])
  }

  ghost predicate AllKnown(parts: seq<string>) { forall i :: 0 <= i < |parts| ==> ReadToken(parts[i]).Ok? }

  lemma AllKnownCons(parts: seq<string>)
    requires parts != []
    ensures AllKnown(parts) <==> ReadToken(parts[0]).Ok? && AllKnown(parts[1..])
  {
    hide ReadToken;
    assert forall i :: 0 < i < |parts| ==> parts[i] == parts[1..][i - 1];
    assert forall i :: 0 <= i < |parts[1..]| ==> parts[1..][i] == parts[i + 1];
  }

  /** A list is accepted exactly when every token is known and the layers it
      names stay within the limit; the result is those layers in order. */
  lemma {:induction false} AcceptanceIsExact(parts: seq<string>, limit: nat, before: seq<Coding>)
    requires |before| <= limit
    ensures var r := ReadTokens(parts, limit, before);
            && (r.Ok? <==> AllKnown(parts) && |before| + |Named(parts)| <= limit)
            && (r.Ok? ==> r.value == before + Named(parts))
    decreases |parts|
  {
    hide ReadToken, AllKnown, Named;
    if parts == [] {
      NothingNamed();
      assert before + [] == before;
    } else {
      AllKnownCons(parts);
      NamedCons(parts);
      match ReadToken(parts[0]) {
        case Err(_) =>
        case Ok(None) => AcceptanceIsExact(parts[1..], limit, before);
        case Ok(Some(coding)) =>
          if |before| < limit {
            AcceptanceIsExact(parts[1..], limit, before + [coding]);
            assert before + [coding] + Named(parts[1..]) == before + ([coding] + Named(parts[1..]));
          }
      }
    }
  }

  lemma NothingNamed()
    ensures AllKnown([]) && Named([]) == []
  {
  }

  lemma NamedCons(parts: seq<string>)
    requires parts != []
    ensures Named(parts)
         == if ReadToken(parts[0]).Ok? && ReadToken(parts[0]).value.Some?
            then [ReadToken(parts[0]).value.value] + Named(parts[1..]) else Named(parts[1..])
  {
    hide ReadToken;
    assert [] + Named(parts[1..]) == Named(parts[1..]);
  }

  // ------------------------------------------------------------- decoding

  /** The compression library, as functions on whole representations. */
  datatype Codecs<!T> = Codecs(encode: (Coding, T) -> T, decode: (Coding, T) -> Option<T>)

  ghost predicate Inverse<T(!new)>(codecs: Codecs<T>)
  {
    forall c, x :: codecs.decode(c, codecs.encode(c, x)) == Some(x)
  }

  /** A sender applies the listed codings in order; identity does nothing. */
  function Apply<T>(codecs: Codecs<T>, parts: seq<string>, x: T): T
    decreases |parts|
  {
    if parts == [] then x
    else
      var token := ReadToken(parts[0]);
      Apply(codecs, parts[1..], if token.Ok? && token.value.Some? then codecs.encode(token.value.value, x) else x)
  }

  function Encode<T>(codecs: Codecs<T>, codings: seq<Coding>, x: T): T
    decreases |codings|
  {
    if codings == [] then x else Encode(codecs, codings[1..], codecs.encode(codings[0], x))
  }

  /** The stacked readers: the last coding applied is taken off first. */
  function Decode<T>(codecs: Codecs<T>, codings: seq<Coding>, body: T): Option<T>
    decreases |codings|
  {
    if codings == [] then Some(body)
    else match codecs.decode(codings[|codings| - 1], body)
      case None => None
      case Some(inner) => Decode(codecs, codings[..|codings| - 1], inner)
  }

  method DecodeBody<T>(codecs: Codecs<T>, codings: seq<Coding>, body: T) returns (r: Option<T>)
    ensures r == Decode(codecs, codings, body)
  {
    var reader := body;
    var i := |codings|;
    assert codings[..i] == codings;
    while i > 0
      invariant 0 <= i <= |codings|
      invariant Decode(codecs, codings[..i], reader) == Decode(codecs, codings, body)
    {
      i := i - 1;
      assert codings[..i + 1][..i] == codings[..i];
      var decoded := codecs.decode(codings[i], reader);
      if decoded.None? { return None; }
      reader := decoded.value;
    }
    return Some(reader);
  }

  lemma {:induction false} EncodeLast<T>(codecs: Codecs<T>, codings: seq<Coding>, c: Coding, x: T)
    ensures Encode(codecs, codings + [c], x) == codecs.encode(c, Encode(codecs, codings, x))
    decreases |codings|
  {
    if codings == [] {
      assert codings + [c] == [c] && [c][1..] == [];
    } else {
      assert (codings + [c])[1..] == codings[1..] + [c];
      EncodeLast(codecs, codings[1..], c, codecs.encode(codings[0], x));
    }
  }

  lemma {:induction false} DecodeInvertsEncode<T(!new)>(codecs: Codecs<T>, codings: seq<Coding>, x: T)
    requires Inverse(codecs)
    ensures Decode(codecs, codings, Encode(codecs, codings, x)) == Some(x)
    decreases |codings|
  {
    if codings != [] {
      var init, c := codings[..|codings| - 1], codings[|codings| - 1];
      assert codings == init + [c];
      EncodeLast(codecs, init, c, x);
      DecodeInvertsEncode(codecs, init, x);
    }
  }

  lemma {:induction false} ApplyIsEncode<T>(
      codecs: Codecs<T>, parts: seq<string>, limit: nat, before: seq<Coding>, x: T)
    requires ReadTokens(parts, limit, before).Ok?
    ensures Apply(codecs, parts, Encode(codecs, before, x))
         == Encode(codecs, ReadTokens(parts, limit, before).value, x)
    decreases |parts|
  {
    if parts != [] {
      match ReadToken(parts[0]) {
        case Ok(None) => ApplyIsEncode(codecs, parts[1..], limit, before, x);
        case Ok(Some(coding)) =>
          EncodeLast(codecs, before, coding, x);
          ApplyIsEncode(codecs, parts[1..], limit, before + [coding], x);
      }
    }
  }

  /** Main result. For codecs that invert each other and every accepted list
      of fields, decoding by the parsed layers recovers the representation the
      sender encoded by the listed tokens; and the layers respect the limit. */
  lemma AcceptedBodiesDecode<T(!new)>(codecs: Codecs<T>, fields: seq<string>, limit: nat, x: T)
    requires Inverse(codecs) && fields != [] && ReadFields(fields, limit, []).Ok?
    ensures var layers := ReadFields(fields, limit, []).value;
            && |layers| <= limit
            && Decode(codecs, layers, Apply(codecs, Split(Join(fields, ","), ','), x)) == Some(x)
  {
    FieldOrderIsOneList(fields, "", limit);
    assert [','] + "" == ",";
    var joined := Join(fields, ",");
    assert IsVisible(joined);
    var layers := ReadFields(fields, limit, []).value;
    assert ReadTokens(Split(joined, ','), limit, []) == Ok(layers) by {
      FieldsAreOneList([joined], "", limit, []);
    }
    TokensWithinLimit(Split(joined, ','), limit, []);
    ApplyIsEncode(codecs, Split(joined, ','), limit, [], x);
    DecodeInvertsEncode(codecs, layers, x);
  }

  /** What the other tokens are: identity, unknown, or no token at all. */
  lemma OtherTokensAreExact(part: string)
    ensures ReadToken(part) == Ok(None) <==> IsToken(Trim(part)) && Lower(Trim(part)) == "identity"
    ensures ReadToken(part) == Err(Unsupported) <==>
              && IsToken(Trim(part))
              && Lower(Trim(part)) !in {"identity", "gzip", "x-gzip", "deflate", "br", "zstd"}
    ensures ReadToken(part) == Err(InvalidList) <==> !IsToken(Trim(part))
  {
    hide Trim, IsToken, Lower;
  }

  /** Where reading a list stops, and why: at the first token that is refused,
      or the first layer too many. */
  ghost predicate StopsAt(parts: seq<string>, limit: nat, before: nat, i: nat, error: CodingError)
  {
    && i < |parts| && (forall j :: 0 <= j < i ==> ReadToken(parts[j]).Ok?)
    && before + |Named(parts[..i])| <= limit
    && match ReadToken(parts[i])
       case Err(e) => error == e
       case Ok(None) => false
       case Ok(Some(_)) => error == TooManyLayers && before + |Named(parts[..i])| == limit
  }

  lemma {:induction false} RefusalsAreExact(parts: seq<string>, limit: nat, before: seq<Coding>) returns (i: nat)
    requires |before| <= limit && ReadTokens(parts, limit, before).Err?
    ensures StopsAt(parts, limit, |before|, i, ReadTokens(parts, limit, before).error)
    decreases |parts|
  {
    hide ReadToken;
    assert parts[..0] == [];
    match ReadToken(parts[0]) {
      case Err(_) => i := 0;
      case Ok(found) =>
        if found.Some? && |before| + 1 > limit {
          i := 0;
        } else {
          var k := RefusalsAreExact(parts[1..], limit, if found.Some? then before + [found.value] else before);
          i := k + 1;
          assert parts[..i][1..] == parts[1..][..k] && parts[..i][0] == parts[0];
          assert forall j :: 0 < j < |parts| ==> parts[j] == parts[1..][j - 1];
        }
    }
  }
}
