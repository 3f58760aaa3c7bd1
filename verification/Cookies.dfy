/** Proxy-session and application cookies. */
module Cookies {
  import opened Common
  import opened HttpText

  const SESSION_COOKIE_NAME: string := "rpackit_proxy_v1"

  datatype CookieError = Authentication | Ambiguous | UnsafeUpstreamCookie

  // ---------------------------------------------------------- reserved names

  function HexValue(c: char): Option<nat>
  {
    if '0' <= c <= '9' then Some((c - '0') as nat)
    else if 'A' <= c <= 'F' then Some((c - 'A') as nat + 10)
    else if 'a' <= c <= 'f' then Some((c - 'a') as nat + 10)
    else None
  }

  function PercentDecode(s: string): string
    decreases |s|
  {
    if s == [] then []
    else if |s| >= 3 && s[0] == '%' && HexValue(s[1]).Some? && HexValue(s[2]).Some? then
      [(16 * HexValue(s[1]).value + HexValue(s[2]).value) as char] + PercentDecode(s[3..])
    else [s[0]] + PercentDecode(s[1..])
  }

  /** The reserved name is ASCII, so a decoding that equals it is UTF-8. */
  predicate IsReserved(name: string)
  {
    Lower(name) == SESSION_COOKIE_NAME || Lower(PercentDecode(name)) == SESSION_COOKIE_NAME
  }

  function HexDigit(n: nat, upper: bool): char
    requires n < 16
  {
    if n < 10 then '0' + n as char else (if upper then 'A' else 'a') + (n - 10) as char
  }

  datatype Spelling = Plain | Percent(upper: bool)

  /** A name with any of its characters percent-encoded, in either hex case. */
  function Spelled(name: string, how: seq<Spelling>): string
    requires |how| == |name| && forall i :: 0 <= i < |name| ==> name[i] < '\U{80}'
  {
    if name == [] then []
    else
      (if how[0].Plain? then [name[0]]
       else ['%', HexDigit(name[0] as nat / 16, how[0].upper), HexDigit(name[0] as nat % 16, how[0].upper)])
      + Spelled(name[1..], how[1..])
  }

  lemma HexRoundTrip(n: nat, upper: bool)
    requires n < 16
    ensures HexValue(HexDigit(n, upper)) == Some(n)
  {
  }

  lemma {:induction false} SpellingIsUndone(name: string, how: seq<Spelling>)
    requires |how| == |name| && '%' !in name && forall i :: 0 <= i < |name| ==> name[i] < '\U{80}'
    ensures PercentDecode(Spelled(name, how)) == name
    decreases |name|
  {
    hide HexDigit, HexValue;
    if name != [] {
      var rest := Spelled(name[1..], how[1..]);
      SpellingIsUndone(name[1..], how[1..]);
      assert [name[0]] + name[1..] == name;
      if how[0].Plain? {
        assert ([name[0]] + rest)[1..] == rest;
      } else {
        var n := name[0] as nat;
        HexRoundTrip(n / 16, how[0].upper);
        HexRoundTrip(n % 16, how[0].upper);
        var code := ['%', HexDigit(n / 16, how[0].upper), HexDigit(n % 16, how[0].upper)];
        assert (code + rest)[3..] == rest;
        assert (16 * (n / 16) + n % 16) as char == name[0];
      }
    }
  }

  /** No spelling of the session cookie's name escapes: every mix of letter
      case and percent-encoding of it is reserved. */
  lemma EverySpellingIsReserved(name: string, how: seq<Spelling>)
    requires Lower(name) == SESSION_COOKIE_NAME && |how| == |name|
    requires '%' !in name && forall i :: 0 <= i < |name| ==> name[i] < '\U{80}'
    ensures IsReserved(Spelled(name, how))
  {
    hide Lower, Spelled, PercentDecode;
    SpellingIsUndone(name, how);
  }

  // ------------------------------------------------------- the Cookie header

  function NameOf(segment: string): string { Until(segment, '=') }

  function ValueOf(segment: string): string
  {
    if |NameOf(segment)| < |segment| then segment[|NameOf(segment)| + 1..] else []
  }

  predicate IsControl(c: char) { c < ' ' || c == '\U{7F}' }

  predicate WellFormed(segment: string)
  {
    && |NameOf(segment)| < |segment|
    && IsToken(NameOf(segment))
    && (forall i :: 0 <= i < |ValueOf(segment)| ==> !IsControl(ValueOf(segment)[i]))
  }

  function Segments(text: string): seq<string> { TrimAll(Split(text, ';')) }

  datatype Jar = Jar(seen: bool, valid: bool, names: set<string>, application: seq<string>)

  function ScanOne(jar: Jar, segment: string, matches: string -> bool): Result<Jar, CookieError>
  {
    if !WellFormed(segment) then Err(Ambiguous)
    else
      var name := NameOf(segment);
      if IsReserved(name) then
        if jar.seen then Err(Ambiguous)
        else Ok(jar.(seen := true, valid := matches(ValueOf(segment))))
      else if name in jar.names then Err(Ambiguous)
      else Ok(jar.(names := jar.names + {name}, application := jar.application + [segment]))
  }

  function Scan(jar: Jar, segments: seq<string>, matches: string -> bool): Result<Jar, CookieError>
    decreases |segments|
  {
    if segments == [] then Ok(jar)
    else match ScanOne(jar, segments[0], matches)
      case Err(error) => Err(error)
      case Ok(jar') => Scan(jar', segments[1..], matches)
  }

  const EMPTY_JAR: Jar := Jar(false, false, {}, [])

  /** The Cookie field to forward, if any is left. `matches` is the
      constant-time comparison with the session secret. */
  function Strip(values: seq<string>, matches: string -> bool): Result<Option<string>, CookieError>
  {
    if |values| != 1 || !IsVisible(values[0]) then Err(Authentication)
    else match Scan(EMPTY_JAR, Segments(values[0]), matches)
      case Err(error) => Err(error)
      case Ok(jar) =>
        if !jar.seen || !jar.valid then Err(Authentication)
        else Ok(if jar.application == [] then None else Some(Join(jar.application, "; ")))
  }

  method AuthenticateAndStrip(values: seq<string>, matches: string -> bool)
    returns (r: Result<Option<string>, CookieError>)
    ensures r == Strip(values, matches)
  {
    if |values| != 1 || !IsVisible(values[0]) { return Err(Authentication); }
    var parts := Split(values[0], ';');
    ghost var segments := Segments(values[0]);
    var sessionSeen, validSession := false, false;
    var application: seq<string> := [];
    var applicationNames: set<string> := {};
    for i := 0 to |parts|
      invariant Scan(Jar(sessionSeen, validSession, applicationNames, application), segments[i..], matches)
             == Scan(EMPTY_JAR, segments, matches)
    {
      assert segments[i..][1..] == segments[i + 1..] && segments[i..][0] == Trim(parts[i]);
      var trimmed := Trim(parts[i]);
      if !WellFormed(trimmed) { return Err(Ambiguous); }
      var name := NameOf(trimmed);
      if IsReserved(name) {
        if sessionSeen { return Err(Ambiguous); }
        sessionSeen := true;
        validSession := matches(ValueOf(trimmed));
      } else {
        if name in applicationNames { return Err(Ambiguous); }
        applicationNames := applicationNames + {name};
        application := application + [trimmed];
      }
    }
    if !sessionSeen || !validSession { return Err(Authentication); }
    if |application| == 0 { return Ok(None); }
    return Ok(Some(Join(application, "; ")));
  }

  // ------------------------------------------------- what stripping achieves

  function ApplicationOf(segments: seq<string>): seq<string>
  {
    if segments == [] then []
    else (if IsReserved(NameOf(segments[0])) then [] else [segments[0]]) + ApplicationOf(segments[1..])
  }

  function ReservedOf(segments: seq<string>): seq<string>
  {
    if segments == [] then []
    else (if IsReserved(NameOf(segments[0])) then [segments[0]] else []) + ReservedOf(segments[1..])
  }

  ghost predicate DistinctNames(segments: seq<string>)
  {
    forall i, j :: 0 <= i < j < |segments| ==> NameOf(segments[i]) != NameOf(segments[j])
  }

  ghost predicate AvoidsNames(segments: seq<string>, names: set<string>)
  {
    forall i :: 0 <= i < |segments| ==> NameOf(segments[i]) !in names
  }

  ghost predicate Scannable(jar: Jar, segments: seq<string>)
  {
    && (forall i :: 0 <= i < |segments| ==> WellFormed(segments[i]))
    && |ReservedOf(segments)| <= (if jar.seen then 0 else 1)
    && DistinctNames(ApplicationOf(segments))
    && AvoidsNames(ApplicationOf(segments), jar.names)
  }

  lemma DistinctCons(head: string, tail: seq<string>)
    ensures DistinctNames([head] + tail) <==> DistinctNames(tail) && AvoidsNames(tail, {NameOf(head)})
  {
    var whole := [head] + tail;
    assert forall i :: 0 < i < |whole| ==> whole[i] == tail[i - 1];
    if DistinctNames(whole) {
      forall i | 0 <= i < |tail| ensures NameOf(tail[i]) !in {NameOf(head)} {
        assert whole[i + 1] == tail[i] && whole[0] == head;
      }
      forall i, j | 0 <= i < j < |tail| ensures NameOf(tail[i]) != NameOf(tail[j]) {
        assert whole[i + 1] == tail[i] && whole[j + 1] == tail[j];
      }
    }
  }

  lemma AvoidsCons(head: string, tail: seq<string>, names: set<string>)
    ensures AvoidsNames([head] + tail, names) <==> NameOf(head) !in names && AvoidsNames(tail, names)
    ensures AvoidsNames(tail, names + {NameOf(head)}) <==>
              AvoidsNames(tail, names) && AvoidsNames(tail, {NameOf(head)})
  {
    var whole := [head] + tail;
    assert whole[0] == head && forall i :: 0 < i < |whole| ==> whole[i] == tail[i - 1];
    if AvoidsNames(whole, names) {
      forall i | 0 <= i < |tail| ensures NameOf(tail[i]) !in names { assert whole[i + 1] == tail[i]; }
    }
  }

  lemma WellFormedCons(segments: seq<string>)
    requires segments != []
    ensures (forall i :: 0 <= i < |segments| ==> WellFormed(segments[i])) <==>
              WellFormed(segments[0]) && forall i :: 0 <= i < |segments[1..]| ==> WellFormed(segments[1..][i])
  {
    if forall i :: 0 <= i < |segments[1..]| ==> WellFormed(segments[1..][i]) {
      forall i | 0 < i < |segments| ensures WellFormed(segments[i]) {
        assert segments[i] == segments[1..][i - 1];
      }
    }
  }

  lemma ScannableReserved(jar: Jar, segments: seq<string>, valid: bool)
    requires segments != [] && WellFormed(segments[0]) && IsReserved(NameOf(segments[0]))
    ensures Scannable(jar, segments) <==>
              !jar.seen && Scannable(jar.(seen := true, valid := valid), segments[1..])
    ensures ApplicationOf(segments) == ApplicationOf(segments[1..])
    ensures ReservedOf(segments) == [segments[0]] + ReservedOf(segments[1..])
  {
    hide IsReserved, WellFormed;
    WellFormedCons(segments);
    assert [] + ApplicationOf(segments[1..]) == ApplicationOf(segments[1..]);
  }

  lemma ScannablePlain(jar: Jar, segments: seq<string>, application: seq<string>)
    requires segments != [] && WellFormed(segments[0]) && !IsReserved(NameOf(segments[0]))
    ensures var name := NameOf(segments[0]);
            Scannable(jar, segments) <==>
              && name !in jar.names
              && Scannable(jar.(names := jar.names + {name}, application := application), segments[1..])
    ensures ApplicationOf(segments) == [segments[0]] + ApplicationOf(segments[1..])
    ensures ReservedOf(segments) == ReservedOf(segments[1..])
  {
    hide IsReserved, WellFormed;
    WellFormedCons(segments);
    DistinctCons(segments[0], ApplicationOf(segments[1..]));
    AvoidsCons(segments[0], ApplicationOf(segments[1..]), jar.names);
    assert [] + ReservedOf(segments[1..]) == ReservedOf(segments[1..]);
  }

  ghost predicate ScanMeans(jar: Jar, application: seq<string>, reserved: seq<string>,
                            matches: string -> bool, after: Jar)
  {
    && after.application == jar.application + application
    && (if reserved == [] then after.seen == jar.seen && after.valid == jar.valid
        else after.seen && after.valid == matches(ValueOf(reserved[0])))
  }

  lemma {:induction false} ScanIsExact(jar: Jar, segments: seq<string>, matches: string -> bool)
    ensures var r := Scan(jar, segments, matches);
            && (r.Ok? <==> Scannable(jar, segments))
            && (r.Ok? ==> ScanMeans(jar, ApplicationOf(segments), ReservedOf(segments), matches, r.value))
    decreases |segments|
  {
    hide IsReserved, WellFormed, NameOf, ValueOf, DistinctNames, AvoidsNames;
    if segments == [] {
      assert jar.application + [] == jar.application;
      EmptyIsScannable(jar);
    } else if WellFormed(segments[0]) {
      var s, rest := segments[0], segments[1..];
      if IsReserved(NameOf(s)) {
        ScannableReserved(jar, segments, matches(ValueOf(s)));
        if !jar.seen { ScanIsExact(jar.(seen := true, valid := matches(ValueOf(s))), rest, matches); }
      } else {
        ScannablePlain(jar, segments, jar.application + [s]);
        if NameOf(s) !in jar.names {
          ScanIsExact(jar.(names := jar.names + {NameOf(s)}, application := jar.application + [s]), rest, matches);
          assert (jar.application + [s]) + ApplicationOf(rest) == jar.application + ([s] + ApplicationOf(rest));
        }
      }
    }
  }

  lemma EmptyIsScannable(jar: Jar)
    ensures Scannable(jar, [])
  {
  }

  lemma {:induction false} ApplicationIsUnreserved(segments: seq<string>, i: nat)
    requires i < |ApplicationOf(segments)|
    ensures ApplicationOf(segments)[i] in segments
    ensures !IsReserved(NameOf(ApplicationOf(segments)[i]))
  {
    if IsReserved(NameOf(segments[0])) {
      ApplicationIsUnreserved(segments[1..], i);
    } else if i > 0 {
      ApplicationIsUnreserved(segments[1..], i - 1);
    }
  }

  lemma SegmentsAreClean(text: string, i: nat)
    requires i < |Segments(text)|
    ensures IsTrimmed(Segments(text)[i]) && ';' !in Segments(text)[i]
    ensures IsVisible(text) ==> IsVisible(Segments(text)[i])
  {
    var part := Split(text, ';')[i];
    SplitHasNoSeparator(text, ';', i);
    TrimFacts(part);
    if IsVisible(text) {
      forall k | 0 <= k < |Trim(part)| ensures Trim(part)[k] == '\t' || ' ' <= Trim(part)[k] <= '~' {
        assert Trim(part)[k] in text;
      }
    }
  }

  /** A browser request authenticates exactly when it carries one Cookie field
      of well-formed segments, one of them reserved and holding the session
      secret, the others with distinct names. */
  ghost predicate Authentic(values: seq<string>, matches: string -> bool)
  {
    && |values| == 1 && IsVisible(values[0])
    && Scannable(EMPTY_JAR, Segments(values[0]))
    && |ReservedOf(Segments(values[0]))| == 1
    && matches(ValueOf(ReservedOf(Segments(values[0]))[0]))
  }

  /** Main result on requests. Acceptance is exactly `Authentic`; the field
      forwarded, read again, holds precisely the application cookies, in
      order and unaltered, none of them under a reserved name; no field is
      forwarded only when there is no application cookie. */
  lemma StrippingIsExact(values: seq<string>, matches: string -> bool)
    ensures Strip(values, matches).Ok? <==> Authentic(values, matches)
    ensures Strip(values, matches).Ok? ==>
              var application := ApplicationOf(Segments(values[0]));
              match Strip(values, matches).value
              case None => application == []
              case Some(rebuilt) =>
                && application != []
                && Segments(rebuilt) == application
                && IsVisible(rebuilt)
                && forall i :: 0 <= i < |application| ==> !IsReserved(NameOf(application[i]))
  {
    hide IsReserved, WellFormed, Split, Trim;
    if |values| == 1 && IsVisible(values[0]) {
      var segments := Segments(values[0]);
      ScanIsExact(EMPTY_JAR, segments, matches);
      var application := ApplicationOf(segments);
      assert [] + application == application;
      forall i | 0 <= i < |application|
        ensures !IsReserved(NameOf(application[i])) && IsVisible(application[i])
        ensures IsTrimmed(application[i]) && ';' !in application[i]
      {
        ApplicationIsUnreserved(segments, i);
        var k :| 0 <= k < |segments| && segments[k] == application[i];
        SegmentsAreClean(values[0], k);
      }
      if application != [] {
        assert [';'] + " " == "; ";
        JoinedReadsBack(application, ';', " ");
        JoinIsVisible(application, "; ");
      }
    }
  }

  // -------------------------------------------------- the Set-Cookie header

  function AttributeName(attribute: string): string { Trim(Until(attribute, '=')) }

  predicate IsDomain(attribute: string) { Lower(AttributeName(attribute)) == "domain" }

  function WithoutDots(s: string): string
  {
    if s != [] && s[0] == '.' then WithoutDots(s[1..]) else s
  }

  predicate NamesHost(attribute: string, host: string)
  {
    var name := Until(attribute, '=');
    |name| < |attribute| && Lower(WithoutDots(Trim(attribute[|name| + 1..]))) == Lower(host)
  }

  /** The attributes kept; only a Domain that names the upstream goes. */
  function KeepAttributes(attributes: seq<string>, seen: set<string>, host: string): Result<seq<string>, CookieError>
    decreases |attributes|
  {
    if attributes == [] then Ok([])
    else
      var attribute := attributes[0];
      var name := Lower(AttributeName(attribute));
      if Refused(attribute, seen, host) then Err(UnsafeUpstreamCookie)
      else match KeepAttributes(attributes[1..], seen + {name}, host)
        case Err(error) => Err(error)
        case Ok(kept) => Ok(if IsDomain(attribute) then kept else [attribute] + kept)
  }

  predicate SafeCookie(first: string)
  {
    |NameOf(first)| < |first| && IsToken(NameOf(first)) && !IsReserved(NameOf(first))
  }

  function Normalize(text: string, host: string): Result<string, CookieError>
  {
    if !IsVisible(text) then Err(UnsafeUpstreamCookie)
    else
      var segments := Segments(text);
      if !SafeCookie(segments[0]) then Err(UnsafeUpstreamCookie)
      else match KeepAttributes(segments[1..], {}, host)
        case Err(error) => Err(error)
        case Ok(kept) => Ok(Join([segments[0]] + kept, "; "))
  }

  function After(kept: seq<string>, r: Result<seq<string>, CookieError>): Result<seq<string>, CookieError>
  {
    if r.Ok? then Ok(kept + r.value) else r
  }

  predicate Refused(attribute: string, seen: set<string>, host: string)
  {
    || attribute == [] || !IsToken(AttributeName(attribute)) || Lower(AttributeName(attribute)) in seen
    || (IsDomain(attribute) && !NamesHost(attribute, host))
  }

  lemma KeepOne(kept: seq<string>, a: string, rest: seq<string>, seen: set<string>, host: string)
    ensures After(kept, KeepAttributes([a] + rest, seen, host))
         == if Refused(a, seen, host) then Err(UnsafeUpstreamCookie)
            else After(if IsDomain(a) then kept else kept + [a],
                       KeepAttributes(rest, seen + {Lower(AttributeName(a))}, host))
  {
    assert ([a] + rest)[1..] == rest && ([a] + rest)[0] == a;
    var later := KeepAttributes(rest, seen + {Lower(AttributeName(a))}, host);
    if later.Ok? { assert kept + ([a] + later.value) == kept + [a] + later.value; }
  }

  method NormalizeSetCookie(text: string, host: string) returns (r: Result<string, CookieError>)
    ensures r == Normalize(text, host)
  {
    hide IsReserved, SafeCookie, Split, Trim, IsToken, AttributeName;
    if !IsVisible(text) { return Err(UnsafeUpstreamCookie); }
    var parts := Split(text, ';');
    ghost var segments := Segments(text);
    var first := Trim(parts[0]);
    if !SafeCookie(first) { return Err(UnsafeUpstreamCookie); }
    var attributes: set<string> := {};
    var kept: seq<string> := [];
    ghost var all := KeepAttributes(segments[1..], {}, host);
    assert all.Ok? ==> [] + all.value == all.value;
    for i := 1 to |parts|
      invariant KeepAttributes(segments[1..], {}, host)
             == After(kept, KeepAttributes(segments[i..], attributes, host))
    {
      var attribute := Trim(parts[i]);
      assert segments[i..] == [attribute] + segments[i + 1..];
      KeepOne(kept, attribute, segments[i + 1..], attributes, host);
      if |attribute| == 0 { return Err(UnsafeUpstreamCookie); }
      var name := AttributeName(attribute);
      if !IsToken(name) { return Err(UnsafeUpstreamCookie); }
      var lower := Lower(name);
      if lower in attributes { return Err(UnsafeUpstreamCookie); }
      attributes := attributes + {lower};
      if lower == "domain" {
        if !NamesHost(attribute, host) { return Err(UnsafeUpstreamCookie); }
      } else {
        kept := kept + [attribute];
      }
    }
    assert segments[|parts|..] == [];
    assert kept + [] == kept;
    return Ok(Join([first] + kept, "; "));
  }

  function NonDomain(attributes: seq<string>): seq<string>
  {
    if attributes == [] then []
    else (if IsDomain(attributes[0]) then [] else [attributes[0]]) + NonDomain(attributes[1..])
  }

  lemma {:induction false} KeepFacts(attributes: seq<string>, seen: set<string>, host: string)
    requires KeepAttributes(attributes, seen, host).Ok?
    ensures var kept := KeepAttributes(attributes, seen, host).value;
            && kept == NonDomain(attributes)
            && (forall k :: k in kept ==> k in attributes && !IsDomain(k))
            && |attributes| - |kept| <= (if "domain" in seen then 0 else 1)
    ensures forall i :: 0 <= i < |attributes| && IsDomain(attributes[i]) ==> NamesHost(attributes[i], host)
    decreases |attributes|
  {
    if attributes != [] {
      KeepFacts(attributes[1..], seen + {Lower(AttributeName(attributes[0]))}, host);
    }
  }

  lemma {:induction false} KeepAgain(attributes: seq<string>, seen: set<string>, fewer: set<string>, host: string)
    requires KeepAttributes(attributes, seen, host).Ok? && fewer <= seen
    ensures var kept := KeepAttributes(attributes, seen, host).value;
            KeepAttributes(kept, fewer, host) == Ok(kept)
    decreases |attributes|
  {
    if attributes != [] {
      var a, rest := attributes[0], attributes[1..];
      var name := Lower(AttributeName(a));
      var kept := KeepAttributes(rest, seen + {name}, host).value;
      if name == "domain" {
        KeepAgain(rest, seen + {name}, fewer, host);
      } else {
        KeepAgain(rest, seen + {name}, fewer + {name}, host);
        assert ([a] + kept)[1..] == kept;
      }
    }
  }

  /** Attributes that may be kept or dropped, whatever came before them. */
  ghost predicate Acceptable(attributes: seq<string>, seen: set<string>, host: string)
  {
    && (forall i :: 0 <= i < |attributes| ==>
          && attributes[i] != [] && IsToken(AttributeName(attributes[i]))
          && Lower(AttributeName(attributes[i])) !in seen
          && (Lower(AttributeName(attributes[i])) == "domain" ==> NamesHost(attributes[i], host)))
    && (forall i, j :: 0 <= i < j < |attributes| ==>
          Lower(AttributeName(attributes[i])) != Lower(AttributeName(attributes[j])))
  }

  lemma {:induction false} KeepIsExact(attributes: seq<string>, seen: set<string>, host: string)
    ensures KeepAttributes(attributes, seen, host).Ok? <==> Acceptable(attributes, seen, host)
    decreases |attributes|
  {
    hide AttributeName, IsToken, Lower, NamesHost;
    if attributes != [] {
      var a, rest := attributes[0], attributes[1..];
      var name := Lower(AttributeName(a));
      KeepIsExact(rest, seen + {name}, host);
      assert forall i :: 0 < i < |attributes| ==> attributes[i] == rest[i - 1];
      if Acceptable(attributes, seen, host) {
        forall i | 0 <= i < |rest| ensures !Refused(rest[i], seen + {name}, host) {
          assert rest[i] == attributes[i + 1];
        }
        forall i, j | 0 <= i < j < |rest|
          ensures Lower(AttributeName(rest[i])) != Lower(AttributeName(rest[j]))
        {
          assert rest[i] == attributes[i + 1] && rest[j] == attributes[j + 1];
        }
      }
      if !Refused(a, seen, host) && Acceptable(rest, seen + {name}, host) {
        forall i | 0 <= i < |attributes| ensures !Refused(attributes[i], seen, host) {
          if i > 0 { assert !Refused(rest[i - 1], seen + {name}, host); }
        }
        forall i, j | 0 <= i < j < |attributes|
          ensures Lower(AttributeName(attributes[i])) != Lower(AttributeName(attributes[j]))
        {
          assert !Refused(rest[j - 1], seen + {name}, host);
        }
      }
    }
  }

  /** Which upstream cookies pass: a safe name, and distinct, well-named
      attributes whose Domain, if any, names the upstream host. */
  lemma NormalizationAcceptsExactly(text: string, host: string)
    ensures Normalize(text, host).Ok? <==>
              && IsVisible(text)
              && '=' in Segments(text)[0]
              && IsToken(NameOf(Segments(text)[0])) && !IsReserved(NameOf(Segments(text)[0]))
              && Acceptable(Segments(text)[1..], {}, host)
  {
    hide KeepAttributes, Acceptable, IsReserved, Trim, Split;
    var first := Segments(text)[0];
    assert '=' in first ==> |NameOf(first)| < |first|;
    KeepIsExact(Segments(text)[1..], {}, host);
  }

  /** Main result on responses. An accepted Set-Cookie keeps its cookie and
      every attribute, in order, except at most one Domain that names the
      upstream host; its cookie is never reserved; and normalizing it again
      changes nothing. */
  lemma NormalizationIsIdempotent(text: string, host: string)
    requires Normalize(text, host).Ok?
    ensures var result := Normalize(text, host).value;
            && Segments(result) == [Segments(text)[0]] + NonDomain(Segments(text)[1..])
            && |Segments(text)| - |Segments(result)| <= 1
            && (forall i :: 1 <= i < |Segments(text)| && IsDomain(Segments(text)[i]) ==>
                  NamesHost(Segments(text)[i], host))
            && !IsReserved(NameOf(Segments(result)[0]))
            && Normalize(result, host) == Ok(result)
  {
    hide IsReserved, Split, Trim, IsDomain, NamesHost, KeepAttributes;
    var segments := Segments(text);
    var attributes := segments[1..];
    var kept := KeepAttributes(attributes, {}, host).value;
    var parts := [segments[0]] + kept;
    KeepFacts(attributes, {}, host);
    KeepAgain(attributes, {}, {}, host);
    forall i | 0 <= i < |parts|
      ensures IsTrimmed(parts[i]) && ';' !in parts[i] && IsVisible(parts[i])
    {
      assert parts[i] in segments by {
        if i == 0 { assert parts[0] == segments[0]; }
        else { assert parts[i] == kept[i - 1] && kept[i - 1] in kept; }
      }
      var k :| 0 <= k < |segments| && segments[k] == parts[i];
      SegmentsAreClean(text, k);
    }
    assert [';'] + " " == "; ";
    JoinedReadsBack(parts, ';', " ");
    JoinIsVisible(parts, "; ");
    assert parts[1..] == kept;
  }

  // ------------------------------------------------- reserved names, exactly

  /** How each character of a name that decodes to `plain` was spelled. */
  lemma {:induction false} SpellingOf(name: string) returns (how: seq<Spelling>)
    requires '%' !in PercentDecode(name)
    requires forall i :: 0 <= i < |PercentDecode(name)| ==> PercentDecode(name)[i] < '\U{80}'
    ensures |how| == |PercentDecode(name)| && name == Spelled(PercentDecode(name), how)
    decreases |name|
  {
    var plain := PercentDecode(name);
    if name == [] {
      how := [];
    } else if |name| >= 3 && name[0] == '%' && HexValue(name[1]).Some? && HexValue(name[2]).Some? {
      assert plain[1..] == PercentDecode(name[3..]);
      var later := SpellingOf(name[3..]);
      var upper := 'A' <= name[2] <= 'F';
      how := [Percent(upper)] + later;
      assert plain[0] as nat == 16 * HexValue(name[1]).value + HexValue(name[2]).value;
      HexBack(name[1], name[2], upper);
      assert how[1..] == later;
      assert name == [name[0], name[1], name[2]] + name[3..];
    } else {
      assert plain[0] == name[0] && plain[1..] == PercentDecode(name[1..]);
      var later := SpellingOf(name[1..]);
      how := [Plain] + later;
      assert how[1..] == later;
      assert name == [name[0]] + name[1..];
    }
  }

  lemma HexBack(high: char, low: char, upper: bool)
    requires HexValue(high).Some? && HexValue(low).Some? && upper == ('A' <= low <= 'F')
    requires 16 * HexValue(high).value + HexValue(low).value < 0x80
    ensures var n := 16 * HexValue(high).value + HexValue(low).value;
            high == HexDigit(n / 16, upper) && low == HexDigit(n % 16, upper)
  {
  }

  /** `name` is the session cookie's, in some letter case and encoding. */
  ghost predicate Spells(name: string, plain: string, how: seq<Spelling>)
  {
    && Lower(plain) == "rpackit_proxy_v1" && |how| == |plain| && '%' !in plain
    && (forall i :: 0 <= i < |plain| ==> plain[i] < '\U{80}')
    && name == Spelled(plain, how)
  }

  lemma PlainNames(plain: string)
    requires Lower(plain) == SESSION_COOKIE_NAME
    ensures '%' !in plain && forall i :: 0 <= i < |plain| ==> plain[i] < '\U{80}'
  {
    forall i | 0 <= i < |plain| ensures plain[i] < '\U{80}' && plain[i] != '%' {
      assert Lower(plain)[i] == LowerChar(plain[i]);
      assert SESSION_COOKIE_NAME[i] in SESSION_COOKIE_NAME;
      assert forall c :: c in SESSION_COOKIE_NAME ==> c < '\U{80}' && c != '%';
    }
  }

  lemma {:induction false} PlainSpelling(plain: string, how: seq<Spelling>)
    requires |how| == |plain| && forall i :: 0 <= i < |plain| ==> how[i] == Plain && plain[i] < '\U{80}'
    ensures Spelled(plain, how) == plain
    decreases |plain|
  {
    if plain != [] {
      PlainSpelling(plain[1..], how[1..]);
      assert [plain[0]] + plain[1..] == plain;
    }
  }

  /** Main result on names: reserved are exactly the spellings of the session
      cookie's name, by any letter case and any percent-encoding. */
  lemma ReservedNamesAreExact(name: string)
    ensures IsReserved(name) <==> exists plain, how :: Spells(name, plain, how)
  {
    hide Lower, Spelled, PercentDecode;
    if Lower(name) == SESSION_COOKIE_NAME {
      PlainNames(name);
      var how := seq(|name|, _ => Plain);
      PlainSpelling(name, how);
      assert Spells(name, name, how);
    } else if IsReserved(name) {
      var plain := PercentDecode(name);
      PlainNames(plain);
      var how := SpellingOf(name);
      assert Spells(name, plain, how);
    }
    if plain, how :| Spells(name, plain, how) { EverySpellingIsReserved(plain, how); }
  }

  // ---------------------------------------------------- cookies as written

  datatype Cookie = Cookie(name: string, value: string)

  function Written(c: Cookie): string { c.name + "=" + c.value }

  function WrittenAll(cookies: seq<Cookie>): (r: seq<string>)
    ensures |r| == |cookies| && forall i :: 0 <= i < |r| ==> r[i] == Written(cookies[i])
  {
    seq(|cookies|, i requires 0 <= i < |cookies| => Written(cookies[i]))
  }

  /** A cookie as section 5.4 of RFC 6265 has a browser send it. */
  ghost predicate Sendable(c: Cookie)
  {
    && IsToken(c.name)
    && (forall i :: 0 <= i < |c.value| ==> ' ' <= c.value[i] <= '~' && c.value[i] != ';')
    && (c.value != [] ==> c.value[|c.value| - 1] != ' ')
  }

  lemma {:induction false} UntilStops(head: string, stop: char, rest: string)
    requires stop !in head
    ensures Until(head + [stop] + rest, stop) == head
    decreases |head|
  {
    var whole := head + [stop] + rest;
    if head != [] {
      assert whole[0] == head[0] && whole[1..] == head[1..] + [stop] + rest;
      UntilStops(head[1..], stop, rest);
    }
  }

  lemma TokenIsPlain(s: string)
    requires IsToken(s)
    ensures '=' !in s && ';' !in s && IsTrimmed(s) && IsVisible(s)
  {
    assert forall i :: 0 <= i < |s| ==> IsTokenChar(s[i]);
    assert !IsTokenChar('=') && !IsTokenChar(';');
    assert forall c :: IsTokenChar(c) ==> ' ' < c <= '~';
  }

  /** Name and value are what stands before and after the first equals sign. */
  lemma WrittenReads(c: Cookie)
    requires '=' !in c.name
    ensures NameOf(Written(c)) == c.name && ValueOf(Written(c)) == c.value
  {
    UntilStops(c.name, '=', c.value);
    assert Written(c) == c.name + ['='] + c.value;
    assert Written(c)[|c.name| + 1..] == c.value;
  }

  lemma SendableIsWellFormed(c: Cookie)
    requires Sendable(c)
    ensures NameOf(Written(c)) == c.name && ValueOf(Written(c)) == c.value && WellFormed(Written(c))
    ensures IsTrimmed(Written(c)) && ';' !in Written(c) && IsVisible(Written(c))
  {
    hide Until;
    TokenIsPlain(c.name);
    WrittenReads(c);
    var w := Written(c);
    assert w[0] == c.name[0] && w[|w| - 1] == (if c.value == [] then '=' else c.value[|c.value| - 1]);
    forall i | 0 <= i < |w| ensures w[i] != ';' && (w[i] == '\t' || ' ' <= w[i] <= '~') {
      if i > |c.name| { assert w[i] == c.value[i - |c.name| - 1]; }
    }
  }

  ghost predicate IsSession(c: Cookie) { exists plain, how :: Spells(c.name, plain, how) }

  /** Which cookie is the session's, all others being the application's own. */
  ghost predicate SessionAt(cookies: seq<Cookie>, k: nat, matches: string -> bool)
  {
    && k < |cookies| && IsSession(cookies[k]) && matches(cookies[k].value)
    && (forall i :: 0 <= i < |cookies| && i != k ==> !IsSession(cookies[i]))
    && (forall i, j :: 0 <= i < j < |cookies| && i != k && j != k ==> cookies[i].name != cookies[j].name)
  }

  function Without<T>(s: seq<T>, k: nat): seq<T>
    requires k < |s|
  {
    s[..k] + s[k + 1..]
  }

  lemma {:induction false} NoneReserved(segments: seq<string>)
    requires forall i :: 0 <= i < |segments| ==> !IsReserved(NameOf(segments[i]))
    ensures ApplicationOf(segments) == segments && ReservedOf(segments) == []
    decreases |segments|
  {
    if segments != [] {
      NoneReserved(segments[1..]);
      assert [segments[0]] + segments[1..] == segments;
    }
  }

  lemma {:induction false} OneReserved(segments: seq<string>, k: nat)
    requires k < |segments| && IsReserved(NameOf(segments[k]))
    requires forall i :: 0 <= i < |segments| && i != k ==> !IsReserved(NameOf(segments[i]))
    ensures ApplicationOf(segments) == Without(segments, k) && ReservedOf(segments) == [segments[k]]
    decreases |segments|
  {
    hide IsReserved, NameOf;
    var rest := segments[1..];
    if k == 0 {
      assert forall i :: 0 <= i < |rest| ==> rest[i] == segments[i + 1];
      NoneReserved(rest);
      assert [] + rest == Without(segments, 0);
    } else {
      assert forall i :: 0 <= i < |rest| ==> rest[i] == segments[i + 1];
      OneReserved(rest, k - 1);
      assert [segments[0]] + Without(rest, k - 1) == Without(segments, k);
    }
  }

  lemma {:induction false} WhichReserved(segments: seq<string>) returns (k: nat)
    requires |ReservedOf(segments)| == 1
    ensures k < |segments| && IsReserved(NameOf(segments[k]))
    ensures forall i :: 0 <= i < |segments| && i != k ==> !IsReserved(NameOf(segments[i]))
    decreases |segments|
  {
    hide IsReserved, NameOf;
    var rest := segments[1..];
    if IsReserved(NameOf(segments[0])) {
      k := 0;
      forall i | 0 < i < |segments| ensures !IsReserved(NameOf(segments[i])) {
        NothingReservedMeans(rest, i - 1);
      }
    } else {
      var j := WhichReserved(rest);
      k := j + 1;
      assert forall i :: 0 < i < |segments| ==> segments[i] == rest[i - 1];
    }
  }

  lemma {:induction false} NothingReservedMeans(segments: seq<string>, i: nat)
    requires ReservedOf(segments) == [] && i < |segments|
    ensures !IsReserved(NameOf(segments[i]))
    decreases |segments|
  {
    if i > 0 { NothingReservedMeans(segments[1..], i - 1); }
  }

  lemma HeaderReads(cookies: seq<Cookie>)
    requires cookies != [] && forall i :: 0 <= i < |cookies| ==> Sendable(cookies[i])
    ensures var header := Join(WrittenAll(cookies), "; ");
            Segments(header) == WrittenAll(cookies) && IsVisible(header)
  {
    var parts := WrittenAll(cookies);
    forall i | 0 <= i < |parts| ensures ';' !in parts[i] && IsTrimmed(parts[i]) && IsVisible(parts[i]) {
      SendableIsWellFormed(cookies[i]);
    }
    assert [';'] + " " == "; ";
    JoinedReadsBack(parts, ';', " ");
    JoinIsVisible(parts, "; ");
  }

  /** Main result on browsers: of the cookies a browser sends, one request
      passes exactly when one of them is the session's, holds the secret, and
      the others are distinct; and exactly the others go on, as written. */
  lemma SentCookiesAreStripped(cookies: seq<Cookie>, matches: string -> bool)
    requires cookies != [] && forall i :: 0 <= i < |cookies| ==> Sendable(cookies[i])
    ensures var r := Strip([Join(WrittenAll(cookies), "; ")], matches);
            && (r.Ok? <==> exists k :: SessionAt(cookies, k, matches))
            && forall k :: SessionAt(cookies, k, matches) ==>
                 r == Ok(if |cookies| == 1 then None else Some(Join(WrittenAll(Without(cookies, k)), "; ")))
  {
    hide Split, Trim, IsReserved, WellFormed, Strip, Scan, NameOf, ValueOf, Sendable, IsSession;
    var header := Join(WrittenAll(cookies), "; ");
    HeaderReads(cookies);
    StrippingIsExact([header], matches);
    WrittenNames(cookies);
    if Strip([header], matches).Ok? {
      var k := WhichReserved(WrittenAll(cookies));
      OneReserved(WrittenAll(cookies), k);
      StrippedIsSessionAt(cookies, k, matches);
    }
    forall k | SessionAt(cookies, k, matches)
      ensures Strip([header], matches)
           == Ok(if |cookies| == 1 then None else Some(Join(WrittenAll(Without(cookies, k)), "; ")))
    {
      SessionIsStripped(cookies, k, matches);
    }
  }

  lemma WrittenNames(cookies: seq<Cookie>)
    requires forall i :: 0 <= i < |cookies| ==> Sendable(cookies[i])
    ensures forall i :: 0 <= i < |cookies| ==>
              && NameOf(Written(cookies[i])) == cookies[i].name && ValueOf(Written(cookies[i])) == cookies[i].value
              && WellFormed(Written(cookies[i]))
              && (IsReserved(cookies[i].name) <==> IsSession(cookies[i]))
  {
    hide IsReserved, Sendable;
    forall i | 0 <= i < |cookies|
      ensures NameOf(Written(cookies[i])) == cookies[i].name && ValueOf(Written(cookies[i])) == cookies[i].value
              && WellFormed(Written(cookies[i])) && (IsReserved(cookies[i].name) <==> IsSession(cookies[i]))
    {
      SendableIsWellFormed(cookies[i]);
      ReservedNamesAreExact(cookies[i].name);
    }
  }

  lemma StrippedIsSessionAt(cookies: seq<Cookie>, k: nat, matches: string -> bool)
    requires forall i :: 0 <= i < |cookies| ==> Sendable(cookies[i])
    requires k < |cookies| && IsReserved(NameOf(Written(cookies[k])))
    requires forall i :: 0 <= i < |cookies| && i != k ==> !IsReserved(NameOf(Written(cookies[i])))
    requires DistinctNames(Without(WrittenAll(cookies), k)) && matches(ValueOf(Written(cookies[k])))
    ensures SessionAt(cookies, k, matches)
  {
    hide IsReserved, WellFormed, NameOf, ValueOf, Sendable, IsSession, Written;
    WrittenNames(cookies);
    var rest := Without(WrittenAll(cookies), k);
    forall i, j | 0 <= i < j < |cookies| && i != k && j != k ensures cookies[i].name != cookies[j].name {
      var a, b := if i < k then i else i - 1, if j < k then j else j - 1;
      assert rest[a] == Written(cookies[i]) && rest[b] == Written(cookies[j]);
    }
  }

  lemma SessionIsStripped(cookies: seq<Cookie>, k: nat, matches: string -> bool)
    requires cookies != [] && forall i :: 0 <= i < |cookies| ==> Sendable(cookies[i])
    requires SessionAt(cookies, k, matches)
    ensures Strip([Join(WrittenAll(cookies), "; ")], matches)
         == Ok(if |cookies| == 1 then None else Some(Join(WrittenAll(Without(cookies, k)), "; ")))
  {
    hide Split, Trim, IsReserved, WellFormed, NameOf, ValueOf, Sendable, IsSession, Written;
    var parts := WrittenAll(cookies);
    HeaderReads(cookies);
    WrittenNames(cookies);
    OneReserved(parts, k);
    var rest := WrittenAll(Without(cookies, k));
    assert Without(parts, k) == rest;
    RestIsDistinct(cookies, k, matches);
    hide DistinctNames, SessionAt, ApplicationOf, ReservedOf, Scan, Join;
    ScanIsExact(EMPTY_JAR, parts, matches);
    assert [] + rest == rest;
  }

  lemma RestIsDistinct(cookies: seq<Cookie>, k: nat, matches: string -> bool)
    requires SessionAt(cookies, k, matches) && forall i :: 0 <= i < |cookies| ==> Sendable(cookies[i])
    ensures DistinctNames(WrittenAll(Without(cookies, k)))
  {
    hide NameOf, Sendable, IsSession, Written, Without;
    var others := Without(cookies, k);
    forall i, j | 0 <= i < j < |others| ensures NameOf(Written(others[i])) != NameOf(Written(others[j])) {
      OthersAt(cookies, k, i);
      OthersAt(cookies, k, j);
      var a, b := if i < k then i else i + 1, if j < k then j else j + 1;
      SendableIsWellFormed(cookies[a]);
      SendableIsWellFormed(cookies[b]);
    }
  }

  lemma OthersAt<T>(s: seq<T>, k: nat, i: nat)
    requires k < |s| && i < |Without(s, k)|
    ensures |Without(s, k)| == |s| - 1 && Without(s, k)[i] == s[if i < k then i else i + 1]
  {
  }

  // ------------------------------------------------- attributes as written

  /** An attribute is named by what stands before its equals sign. */
  lemma AttributesRead(name: string, value: string)
    requires IsToken(name)
    ensures AttributeName(name) == name && AttributeName(name + "=" + value) == name
    ensures IsDomain(name + "=" + value) <==> Lower(name) == "domain"
  {
    hide Trim;
    TokenIsPlain(name);
    TrimFacts(name);
    UntilStops(name, '=', value);
    assert name + "=" + value == name + ['='] + value;
    UntilWhole(name, '=');
  }

  lemma {:induction false} UntilWhole(s: string, stop: char)
    requires stop !in s
    ensures Until(s, stop) == s
  {
    if s != [] {
      UntilWhole(s[1..], stop);
      assert [s[0]] + s[1..] == s;
    }
  }

  /** A Domain names the upstream host after any leading dots, in any letter
      case and padding; one without a value never does. */
  lemma DomainsAreExact(name: string, before: string, dots: nat, domain: string, after: string, host: string)
    requires IsToken(name) && AllBlank(before) && AllBlank(after)
    requires domain != [] && IsTrimmed(domain) && domain[0] != '.'
    ensures NamesHost(name + "=" + (before + Dots(dots) + domain + after), host) <==> Lower(domain) == Lower(host)
    ensures !NamesHost(name, host)
  {
    hide Trim, Lower, WithoutDots, Until, IsToken, AllBlank, IsTrimmed;
    TokenIsPlain(name);
    UntilWhole(name, '=');
    var value := before + Dots(dots) + domain + after;
    UntilStops(name, '=', value);
    var attribute := name + "=" + value;
    assert attribute == name + ['='] + value && attribute[|name| + 1..] == value;
    DottedIsTrimmed(before, dots, domain, after);
    DotsGo(dots, domain);
  }

  lemma DottedIsTrimmed(before: string, dots: nat, domain: string, after: string)
    requires AllBlank(before) && AllBlank(after) && domain != [] && IsTrimmed(domain)
    ensures Trim(before + Dots(dots) + domain + after) == Dots(dots) + domain
  {
    hide Trim, AllBlank;
    var trimmed := Dots(dots) + domain;
    assert before + Dots(dots) + domain + after == before + trimmed + after;
    assert trimmed[|trimmed| - 1] == domain[|domain| - 1];
    assert trimmed[0] == if dots > 0 then '.' else domain[0];
    TrimIsExact(before, trimmed, after);
  }

  function Dots(n: nat): (s: string)
    ensures |s| == n && forall i :: 0 <= i < n ==> s[i] == '.'
  {
    seq(n, _ => '.')
  }

  lemma {:induction false} DotsGo(n: nat, domain: string)
    requires domain == [] || domain[0] != '.'
    ensures WithoutDots(Dots(n) + domain) == domain
    decreases n
  {
    if n == 0 {
      assert Dots(n) + domain == domain;
    } else {
      assert (Dots(n) + domain)[1..] == Dots(n - 1) + domain;
      DotsGo(n - 1, domain);
    }
  }

  /** Characters a cookie's value may hold: no control, and so no tab. */
  ghost predicate Uncontrolled(value: string)
  {
    forall i :: 0 <= i < |value| ==> value[i] as int >= 32 && value[i] as int != 127
  }

  /** A segment is well-formed exactly when it is a token, an equals sign and a
      value without controls. */
  lemma WellFormedIsExact(segment: string)
    ensures WellFormed(segment) <==>
              exists c: Cookie :: segment == Written(c) && IsToken(c.name) && Uncontrolled(c.value)
  {
    hide IsToken;
    if WellFormed(segment) {
      var c := Cookie(NameOf(segment), ValueOf(segment));
      assert segment == Written(c);
      assert Uncontrolled(c.value);
    }
    forall c: Cookie | segment == Written(c) && IsToken(c.name) && Uncontrolled(c.value) ensures WellFormed(segment) {
      TokenIsPlain(c.name);
      WrittenReads(c);
    }
  }

  /** A request is ambiguous when its one field cannot be taken apart in one
      way, and unauthenticated when there is no such field or no session in it. */
  lemma StripRefusalsAreExact(values: seq<string>, matches: string -> bool)
    ensures Strip(values, matches) == Err(Ambiguous) <==>
              |values| == 1 && IsVisible(values[0]) && !Scannable(EMPTY_JAR, Segments(values[0]))
    ensures Strip(values, matches) == Err(Authentication) <==>
              || |values| != 1 || !IsVisible(values[0])
              || (Scannable(EMPTY_JAR, Segments(values[0])) && !Authentic(values, matches))
  {
    hide Scannable, Segments, Scan, Join;
    StrippingIsExact(values, matches);
    if |values| == 1 {
      ScanIsExact(EMPTY_JAR, Segments(values[0]), matches);
      ScanRefusals(EMPTY_JAR, Segments(values[0]), matches);
    }
  }

  lemma {:induction false} ScanRefusals(jar: Jar, segments: seq<string>, matches: string -> bool)
    ensures Scan(jar, segments, matches).Err? ==> Scan(jar, segments, matches) == Err(Ambiguous)
    decreases |segments|
  {
    hide WellFormed, IsReserved, NameOf, ValueOf;
    if segments != [] {
      var next := ScanOne(jar, segments[0], matches);
      if next.Ok? { ScanRefusals(next.value, segments[1..], matches); }
    }
  }
}
