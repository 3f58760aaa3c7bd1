/** Raw admission of one request head, after its lines have been parsed. */
module Admission {
  import opened Common
  import opened HttpText
  import opened Headers

  const PROTECTED_HEADER: string := "shiny-shared-secret"
  const BOOTSTRAP_HEADER: string := "x-rpackit-bootstrap"

  datatype AdmissionError =
    | Authority | AmbiguousSecurityHeader | Framing | BodyLimit | Malformed
    | ProtectedConnectionToken | UpgradeRefused

  datatype Admitted = Admitted(connectionTokens: seq<string>, websocketUpgrade: bool)

  predicate IsForwarding(name: string)
  {
    name == "forwarded" || name == "x-real-ip" || "x-forwarded-" <= name || "x-original-" <= name
  }

  predicate IsProtectedTarget(name: string)
  {
    || name in {"host", "cookie", "origin", "content-length", "transfer-encoding",
                PROTECTED_HEADER, BOOTSTRAP_HEADER}
    || IsForwarding(name)
  }

  const SINGLE_VALUED: seq<string> :=
    ["cookie", "origin", PROTECTED_HEADER, BOOTSTRAP_HEADER, "connection", "upgrade"]

  predicate HasAmbiguity(h: HeaderMap)
  {
    exists i :: 0 <= i < |SINGLE_VALUED| && |Values(h, SINGLE_VALUED[i])| > 1
  }

  predicate IsDigits(s: string) { s != [] && forall i :: 0 <= i < |s| ==> '0' <= s[i] <= '9' }

  function Number(s: string): nat
    requires IsDigits(s)
  {
    Decimal(seq(|s|, i requires 0 <= i < |s| => (s[i] - '0') as nat))
  }

  function FramingFault(h: HeaderMap, maxBody: nat): Option<AdmissionError>
  {
    var lengths, encodings := Values(h, "content-length"), Values(h, "transfer-encoding");
    if |lengths| > 1 || |encodings| > 1 || (lengths != [] && encodings != []) then Some(Framing)
    else if lengths != [] && !IsDigits(lengths[0]) then Some(BodyLimit)
    else if lengths != [] && Number(lengths[0]) > U64_MAX then Some(Framing)
    else if lengths != [] && Number(lengths[0]) > maxBody then Some(BodyLimit)
    else if encodings != [] && Lower(encodings[0]) != "chunked" then Some(Framing)
    else None
  }

  /** `trim` is str::trim, which knows non-ASCII blanks too. */
  function ReadTokens(parts: seq<string>, trim: string -> string, tokens: seq<string>): Option<seq<string>>
    decreases |parts|
  {
    if parts == [] then Some(tokens)
    else
      var token := trim(parts[0]);
      if !IsToken(token) || Lower(token) in tokens then None
      else ReadTokens(parts[1..], trim, tokens + [Lower(token)])
  }

  function ConnectionTokens(h: HeaderMap, trim: string -> string): Option<seq<string>>
  {
    var entries := Values(h, "connection");
    if entries == [] then Some([]) else ReadTokens(Split(entries[0], ','), trim, [])
  }

  method ParseConnectionTokens(h: HeaderMap, trim: string -> string) returns (r: Option<seq<string>>)
    ensures r == ConnectionTokens(h, trim)
  {
    var entries := Values(h, "connection");
    if |entries| == 0 { return Some([]); }
    var parts := Split(entries[0], ',');
    var tokens: seq<string> := [];
    for i := 0 to |parts|
      invariant ReadTokens(parts[i..], trim, tokens) == ReadTokens(parts, trim, [])
    {
      assert parts[i..][1..] == parts[i + 1..];
      var token := trim(parts[i]);
      if !IsToken(token) { return None; }
      if Lower(token) in tokens { return None; }
      tokens := tokens + [Lower(token)];
    }
    return Some(tokens);
  }

  function Upgrade(h: HeaderMap, tokens: seq<string>): Option<bool>
  {
    if "http2-settings" in h then None
    else
      var entries := Values(h, "upgrade");
      if entries == [] then if "upgrade" in tokens then None else Some(false)
      else if "upgrade" !in tokens || Lower(entries[0]) != "websocket" then None
      else Some(true)
  }

  function Admit(h: HeaderMap, authority: string, maxBody: nat, trim: string -> string)
    : Result<Admitted, AdmissionError>
  {
    if Values(h, "host") != [authority] then Err(Authority)
    else if HasAmbiguity(h) then Err(AmbiguousSecurityHeader)
    else if FramingFault(h, maxBody).Some? then Err(FramingFault(h, maxBody).value)
    else match ConnectionTokens(h, trim)
      case None => Err(Malformed)
      case Some(tokens) =>
        if exists i :: 0 <= i < |tokens| && IsProtectedTarget(tokens[i]) then Err(ProtectedConnectionToken)
        else match Upgrade(h, tokens)
          case None => Err(UpgradeRefused)
          case Some(websocket) => Ok(Admitted(tokens, websocket))
  }

  /** What a Connection field lists, as it stands. */
  function Nominations(h: HeaderMap): seq<string>
  {
    var entries := Values(h, "connection");
    if entries == [] then [] else Split(entries[0], ',')
  }

  /** The same, trimmed and in lower case. */
  function Options(parts: seq<string>, trim: string -> string): (options: seq<string>)
    ensures |options| == |parts|
    ensures forall i :: 0 <= i < |parts| ==> options[i] == Lower(trim(parts[i]))
  {
    seq(|parts|, i requires 0 <= i < |parts| => Lower(trim(parts[i])))
  }

  ghost predicate Distinct(names: seq<string>)
  {
    forall i, j :: 0 <= i < j < |names| ==> names[i] != names[j]
  }

  ghost predicate AllTokens(parts: seq<string>, trim: string -> string)
  {
    forall i :: 0 <= i < |parts| ==> IsToken(trim(parts[i]))
  }

  /** Reading succeeds exactly on tokens that differ in lower case. */
  lemma {:induction false} ReadTokensIsExact(parts: seq<string>, trim: string -> string, tokens: seq<string>)
    requires Distinct(tokens)
    ensures ReadTokens(parts, trim, tokens)
         == if AllTokens(parts, trim) && Distinct(tokens + Options(parts, trim))
            then Some(tokens + Options(parts, trim)) else None
    decreases |parts|
  {
    hide IsToken, Lower;
    var all := tokens + Options(parts, trim);
    if parts == [] {
      assert all == tokens;
    } else {
      var token := trim(parts[0]);
      assert all[|tokens|] == Lower(token);
      if Lower(token) in tokens {
        var i :| 0 <= i < |tokens| && tokens[i] == Lower(token);
        assert all[i] == all[|tokens|];
      } else if IsToken(token) {
        ReadTokensIsExact(parts[1..], trim, tokens + [Lower(token)]);
        assert (tokens + [Lower(token)]) + Options(parts[1..], trim) == all;
        assert AllTokens(parts, trim) <==> AllTokens(parts[1..], trim) by {
          assert forall i :: 0 < i < |parts| ==> parts[i] == parts[1..][i - 1];
        }
      }
    }
  }

  lemma ConnectionTokensAreExact(h: HeaderMap, trim: string -> string)
    ensures var parts := Nominations(h);
            ConnectionTokens(h, trim)
            == if AllTokens(parts, trim) && Distinct(Options(parts, trim)) then Some(Options(parts, trim)) else None
  {
    var parts := Nominations(h);
    assert [] + Options(parts, trim) == Options(parts, trim);
    ReadTokensIsExact(parts, trim, []);
  }

  /** Admission reports exactly the nominated options, in lower case, without
      repetition and none of them protected. */
  lemma AdmittedTokensAreTheOptions(h: HeaderMap, authority: string, maxBody: nat, trim: string -> string)
    requires Admit(h, authority, maxBody, trim).Ok? && Values(h, "connection") != []
    ensures var tokens := Admit(h, authority, maxBody, trim).value.connectionTokens;
            var parts := Split(Values(h, "connection")[0], ',');
            && |tokens| == |parts|
            && (forall i :: 0 <= i < |parts| ==> IsToken(trim(parts[i])) && tokens[i] == Lower(trim(parts[i])))
            && (forall i, j :: 0 <= i < j < |tokens| ==> tokens[i] != tokens[j])
            && (forall i :: 0 <= i < |tokens| ==> !IsProtectedTarget(tokens[i]))
  {
    hide HasAmbiguity, FramingFault, Upgrade, Split, IsToken, Lower, IsProtectedTarget;
    ConnectionTokensAreExact(h, trim);
  }

  /** What an admitted head is, field by field. */
  ghost predicate Unambiguous(h: HeaderMap, authority: string, maxBody: nat)
  {
    && Values(h, "host") == [authority]
    && |Values(h, "cookie")| <= 1 && |Values(h, "origin")| <= 1
    && |Values(h, PROTECTED_HEADER)| <= 1 && |Values(h, BOOTSTRAP_HEADER)| <= 1
    && |Values(h, "connection")| <= 1 && |Values(h, "upgrade")| <= 1
    && |Values(h, "content-length")| + |Values(h, "transfer-encoding")| <= 1
    && (forall v :: v in Values(h, "content-length") ==> IsDigits(v) && Number(v) <= Min(maxBody, U64_MAX))
    && (forall v :: v in Values(h, "transfer-encoding") ==> Lower(v) == "chunked")
  }

  lemma AmbiguityIsExact(h: HeaderMap)
    ensures !HasAmbiguity(h) <==>
              && |Values(h, "cookie")| <= 1 && |Values(h, "origin")| <= 1
              && |Values(h, PROTECTED_HEADER)| <= 1 && |Values(h, BOOTSTRAP_HEADER)| <= 1
              && |Values(h, "connection")| <= 1 && |Values(h, "upgrade")| <= 1
  {
    assert SINGLE_VALUED[0] == "cookie" && SINGLE_VALUED[1] == "origin" && SINGLE_VALUED[2] == PROTECTED_HEADER
        && SINGLE_VALUED[3] == BOOTSTRAP_HEADER && SINGLE_VALUED[4] == "connection" && SINGLE_VALUED[5] == "upgrade";
  }

  lemma FramingIsExact(h: HeaderMap, maxBody: nat)
    ensures FramingFault(h, maxBody).None? <==>
              && |Values(h, "content-length")| + |Values(h, "transfer-encoding")| <= 1
              && (forall v :: v in Values(h, "content-length") ==> IsDigits(v) && Number(v) <= Min(maxBody, U64_MAX))
              && (forall v :: v in Values(h, "transfer-encoding") ==> Lower(v) == "chunked")
  {
    hide Lower, Number;
    var lengths, encodings := Values(h, "content-length"), Values(h, "transfer-encoding");
    assert lengths != [] ==> lengths[0] in lengths;
    assert encodings != [] ==> encodings[0] in encodings;
  }

  /** A declared length is a string of digits and means their number, place by
      place. */
  lemma NumbersAreByPlace(s: string)
    ensures IsDigits(s) <==> s != [] && forall i :: 0 <= i < |s| ==> s[i] in "0123456789"
    ensures IsDigits(s) ==> Number(s) == ByPlace(seq(|s|, i requires 0 <= i < |s| => Max(s[i] as int - 48, 0)))
  {
    if IsDigits(s) {
      var digits := seq(|s|, i requires 0 <= i < |s| => (s[i] - '0') as nat);
      assert digits == seq(|s|, i requires 0 <= i < |s| => Max(s[i] as int - 48, 0));
      DecimalIsByPlace(digits);
    }
  }

  /** A parsed head is admitted exactly when it is unambiguous, nominates only
      well-formed, distinct, unprotected options, and upgrades either not at
      all or, consistently, to a WebSocket. */
  lemma AdmissionIsExact(h: HeaderMap, authority: string, maxBody: nat, trim: string -> string)
    ensures Admit(h, authority, maxBody, trim).Ok? <==>
              && Unambiguous(h, authority, maxBody)
              && AllTokens(Nominations(h), trim)
              && Distinct(Options(Nominations(h), trim))
              && (forall i :: 0 <= i < |Options(Nominations(h), trim)| ==>
                    !IsProtectedTarget(Options(Nominations(h), trim)[i]))
              && "http2-settings" !in h
              && (Values(h, "upgrade") != [] <==> "upgrade" in Options(Nominations(h), trim))
              && (Values(h, "upgrade") != [] ==> Lower(Values(h, "upgrade")[0]) == "websocket")
    ensures Admit(h, authority, maxBody, trim).Ok? ==>
              Admit(h, authority, maxBody, trim).value
              == Admitted(Options(Nominations(h), trim), Values(h, "upgrade") != [])
  {
    hide HasAmbiguity, FramingFault, ConnectionTokens, IsProtectedTarget, Lower, Number, IsDigits, Options,
      Nominations, Distinct, AllTokens;
    ConnectionTokensAreExact(h, trim);
    AmbiguityIsExact(h);
    FramingIsExact(h, maxBody);
  }

  // --------------------------------------------------------- names in words

  ghost predicate StartsWith(name: string, start: string) { exists rest :: name == start + rest }

  /** Fields that say where a request came from. */
  ghost predicate TellsOrigin(name: string)
  {
    || name == "forwarded" || name == "x-real-ip"
    || StartsWith(name, "x-forwarded-") || StartsWith(name, "x-original-")
  }

  lemma StartsAre(name: string, start: string)
    ensures start <= name <==> StartsWith(name, start)
  {
    if start <= name { assert name == start + name[|start|..]; }
  }

  /** The names a Connection field may not nominate: what decides who is asking,
      where the body ends, and what the proxy itself adds. */
  lemma ProtectedNamesAre(name: string)
    ensures IsForwarding(name) <==> TellsOrigin(name)
    ensures IsProtectedTarget(name) <==>
              || name in {"host", "cookie", "origin", "content-length", "transfer-encoding",
                          "shiny-shared-secret", "x-rpackit-bootstrap"}
              || TellsOrigin(name)
  {
    hide StartsWith;
    StartsAre(name, "x-forwarded-");
    StartsAre(name, "x-original-");
  }

  /** The fields that may appear once at most. */
  lemma SingleFieldsAre(h: HeaderMap)
    ensures !HasAmbiguity(h) <==>
              && |Values(h, "cookie")| <= 1 && |Values(h, "origin")| <= 1
              && |Values(h, "shiny-shared-secret")| <= 1 && |Values(h, "x-rpackit-bootstrap")| <= 1
              && |Values(h, "connection")| <= 1 && |Values(h, "upgrade")| <= 1
  {
    AmbiguityIsExact(h);
  }

  // ------------------------------------------------------ which refusal it is

  /** More than one framing field. */
  ghost predicate DoublyFramed(h: HeaderMap)
  {
    |Values(h, "content-length")| + |Values(h, "transfer-encoding")| > 1
  }

  /** What is wrong with the framing: its number or form, or the length it
      declares; a length that is no number counts as too long. */
  lemma FramingFaultsAreExact(h: HeaderMap, maxBody: nat)
    ensures FramingFault(h, maxBody)
         == if DoublyFramed(h) then Some(Framing)
            else if exists v :: v in Values(h, "content-length") && !IsDigits(v) then Some(BodyLimit)
            else if exists v :: v in Values(h, "content-length") && Number(v) > U64_MAX then Some(Framing)
            else if exists v :: v in Values(h, "content-length") && Number(v) > maxBody then Some(BodyLimit)
            else if exists v :: v in Values(h, "transfer-encoding") && Lower(v) != "chunked" then Some(Framing)
            else None
  {
    hide Lower, Number, IsDigits;
    var lengths, encodings := Values(h, "content-length"), Values(h, "transfer-encoding");
    assert lengths != [] ==> lengths[0] in lengths;
    assert encodings != [] ==> encodings[0] in encodings;
  }

  /** The refusal a head meets is the first of these that applies. */
  lemma RefusalsAreExact(h: HeaderMap, authority: string, maxBody: nat, trim: string -> string)
    requires Admit(h, authority, maxBody, trim).Err?
    ensures var options := Options(Nominations(h), trim);
            Admit(h, authority, maxBody, trim).error
            == if Values(h, "host") != [authority] then Authority
               else if HasAmbiguity(h) then AmbiguousSecurityHeader
               else if FramingFault(h, maxBody).Some? then FramingFault(h, maxBody).value
               else if !AllTokens(Nominations(h), trim) || !Distinct(options) then Malformed
               else if exists i :: 0 <= i < |options| && IsProtectedTarget(options[i]) then ProtectedConnectionToken
               else UpgradeRefused
  {
    hide HasAmbiguity, FramingFault, ConnectionTokens, IsProtectedTarget, Upgrade, Options, Nominations, Distinct,
      AllTokens;
    ConnectionTokensAreExact(h, trim);
  }
}
