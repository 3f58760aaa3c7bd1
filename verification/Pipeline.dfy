/** What a request must pass, and what of it reaches the upstream. */
module Pipeline {
  import opened Common
  import opened HttpText
  import opened Headers
  import opened Admission
  import Cookies

  const BOOTSTRAP_SEGMENT: string := "__rpackit_bootstrap"
  const BOOTSTRAP_PATH: string := "/__rpackit_bootstrap"

  datatype Request = Request(verb: string, path: string, query: Option<string>, headers: HeaderMap)

  /** `validKey` and `validExtensions` stand for the base64 and extension
      grammars of the WebSocket handshake. */
  datatype Proxy = Proxy(
    origin: string,
    upstream: string,
    secret: string,
    sessionMatches: string -> bool,
    bootstrapMatches: string -> bool,
    validKey: string -> bool,
    validExtensions: seq<string> -> bool)

  // ------------------------------------------------------- request decisions

  predicate IsBootstrap(r: Request)
  {
    && r.verb in {"GET", "HEAD"} && r.path == BOOTSTRAP_PATH && r.query.None?
    && "content-length" !in r.headers && "transfer-encoding" !in r.headers
  }

  predicate ReferencesBootstrap(path: string)
  {
    BOOTSTRAP_SEGMENT in Split(Cookies.PercentDecode(path), '/')
  }

  predicate OriginAllowed(p: Proxy, r: Request, websocket: bool)
  {
    var origins := Values(r.headers, "origin");
    if websocket || r.verb !in {"GET", "HEAD", "OPTIONS"} then origins == [p.origin]
    else origins == [] || origins == [p.origin]
  }

  predicate BootstrapHeaderValid(p: Proxy, r: Request)
  {
    var values := Values(r.headers, BOOTSTRAP_HEADER);
    |values| == 1 && p.bootstrapMatches(values[0])
  }

  datatype Decision =
    | Claim(valid: bool)
    | Reject
    | Forbid
    | Unauthorized
    | BadGateway
    | ForwardHttp(headers: HeaderMap)
    | ForwardWebSocket(headers: HeaderMap)

  // --------------------------------------------------------- the HTTP path

  const HOP_BY_HOP: set<string> :=
    {"connection", "proxy-connection", "keep-alive", "transfer-encoding", "te", "trailer", "upgrade",
     "content-length", "proxy-authorization", "proxy-authenticate", PROTECTED_HEADER, BOOTSTRAP_HEADER}

  function Stripped(h: HeaderMap, tokens: seq<string>): HeaderMap
  {
    map name | name in h && name !in HOP_BY_HOP && name !in tokens && !IsForwarding(name) :: h[name]
  }

  method StripRequestHeaders(h: HeaderMap, tokens: seq<string>) returns (out: HeaderMap)
    ensures out == Stripped(h, tokens)
  {
    out := h - HOP_BY_HOP;
    for i := 0 to |tokens|
      invariant out == map name | name in h && name !in HOP_BY_HOP && name !in tokens[..i] :: h[name]
    {
      out := out - {tokens[i]};
    }
    assert tokens[..|tokens|] == tokens;
    ghost var kept := out;
    var names := out.Keys;
    while names != {}
      invariant names <= out.Keys
      invariant out.Keys <= kept.Keys && forall name :: name in out ==> out[name] == kept[name]
      invariant forall name :: name in kept ==> name in out || IsForwarding(name)
      invariant forall name :: name in out && name !in names ==> !IsForwarding(name)
      decreases names
    {
      var name :| name in names;
      names := names - {name};
      if IsForwarding(name) { out := out - {name}; }
    }
  }

  function UpstreamOrigin(p: Proxy): string { "http://" + p.upstream }

  function NormalizedHttp(p: Proxy, h: HeaderMap, tokens: seq<string>): HeaderMap
  {
    var stripped := Stripped(h, tokens);
    var rewritten := if "origin" in stripped then Insert(stripped, "origin", UpstreamOrigin(p)) else stripped;
    Insert(Insert(rewritten, "host", p.upstream), PROTECTED_HEADER, p.secret)
  }

  // ---------------------------------------------------- the WebSocket path

  function ReadProtocols(parts: seq<string>, protocols: seq<string>): Option<seq<string>>
    decreases |parts|
  {
    if parts == [] then Some(protocols)
    else
      var protocol := Trim(parts[0]);
      if !IsToken(protocol) || protocol in protocols then None
      else ReadProtocols(parts[1..], protocols + [protocol])
  }

  function Protocols(h: HeaderMap): Option<seq<string>>
  {
    var values := Values(h, "sec-websocket-protocol");
    if values == [] then Some([])
    else if |values| > 1 || !IsVisible(values[0]) then None
    else ReadProtocols(Split(values[0], ','), [])
  }

  predicate WebSocketShape(p: Proxy, r: Request)
  {
    && r.verb == "GET"
    && "content-length" !in r.headers && "transfer-encoding" !in r.headers && "trailer" !in r.headers
    && |Values(r.headers, "upgrade")| == 1 && Lower(Values(r.headers, "upgrade")[0]) == "websocket"
    && Values(r.headers, "sec-websocket-version") == ["13"]
    && Values(r.headers, "origin") == [p.origin]
    && |Values(r.headers, "sec-websocket-key")| == 1
    && p.validKey(Values(r.headers, "sec-websocket-key")[0])
    && Protocols(r.headers).Some?
    && p.validExtensions(Values(r.headers, "sec-websocket-extensions"))
  }

  function UpstreamWebSocket(p: Proxy, h: HeaderMap): HeaderMap
    requires |Values(h, "sec-websocket-key")| == 1 && Protocols(h).Some?
  {
    var protocols := Protocols(h).value;
    var cookies := Values(h, "cookie");
    var base := map[
      "host" := [p.upstream], "connection" := ["Upgrade"], "upgrade" := ["websocket"],
      "sec-websocket-version" := ["13"],
      "sec-websocket-key" := [Values(h, "sec-websocket-key")[0]], "origin" := [UpstreamOrigin(p)]];
    var offered := if protocols == [] then base
                   else Insert(base, "sec-websocket-protocol", Join(protocols, ", "));
    var cookied := if cookies == [] then offered else Insert(offered, "cookie", cookies[0]);
    Insert(cookied, PROTECTED_HEADER, p.secret)
  }

  // ------------------------------------------------------------- the handler

  function WithCookie(h: HeaderMap, cookie: Option<string>): HeaderMap
  {
    if cookie.Some? then Insert(h - {"cookie"}, "cookie", cookie.value) else h - {"cookie"}
  }

  function Decide(p: Proxy, admitted: Admitted, r: Request): Decision
  {
    if IsBootstrap(r) then Claim(BootstrapHeaderValid(p, r))
    else if ReferencesBootstrap(r.path) || BOOTSTRAP_HEADER in r.headers then Reject
    else if !OriginAllowed(p, r, admitted.websocketUpgrade) then Forbid
    else match Cookies.Strip(Values(r.headers, "cookie"), p.sessionMatches)
      case Err(_) => Unauthorized
      case Ok(cookie) =>
        var h := WithCookie(r.headers, cookie);
        if admitted.websocketUpgrade then
          if WebSocketShape(p, r.(headers := h)) then ForwardWebSocket(UpstreamWebSocket(p, h)) else BadGateway
        else ForwardHttp(NormalizedHttp(p, h, admitted.connectionTokens))
  }

  // ------------------------------------------------- what reaches the upstream

  /** No forwarded cookie has a name that is, or decodes to, the reserved one. */
  ghost predicate CookieIsForeign(h: HeaderMap)
  {
    var cookies := Values(h, "cookie");
    && |cookies| <= 1
    && forall i, j :: 0 <= i < |cookies| && 0 <= j < |Cookies.Segments(cookies[i])| ==>
         !Cookies.IsReserved(Cookies.NameOf(Cookies.Segments(cookies[i])[j]))
  }

  /** Exactly one upstream secret, one fixed Host, at most one Origin and that
      rewritten, and no bootstrap, forwarding or reserved-cookie trace. */
  ghost predicate Clean(p: Proxy, h: HeaderMap)
  {
    && Values(h, PROTECTED_HEADER) == [p.secret]
    && Values(h, "host") == [p.upstream]
    && (Values(h, "origin") == [] || Values(h, "origin") == [UpstreamOrigin(p)])
    && BOOTSTRAP_HEADER !in h
    && (forall name :: name in h ==> !IsForwarding(name))
    && CookieIsForeign(h)
  }

  /** The page the request comes from: ours, or none where a browser sends none
      and nothing is changed. */
  ghost predicate FromOurPage(p: Proxy, r: Request, websocket: bool)
  {
    || Values(r.headers, "origin") == [p.origin]
    || (!websocket && (r.verb == "GET" || r.verb == "HEAD" || r.verb == "OPTIONS") && Values(r.headers, "origin") == [])
  }

  ghost predicate AsksForSession(r: Request)
  {
    && (r.verb == "GET" || r.verb == "HEAD")
    && r.path == "/__rpackit_bootstrap" && r.query == None
    && "content-length" !in r.headers && "transfer-encoding" !in r.headers
  }

  ghost predicate ProvesBootstrap(p: Proxy, r: Request)
  {
    exists v :: Values(r.headers, "x-rpackit-bootstrap") == [v] && p.bootstrapMatches(v)
  }

  /** Some segment of the decoded path, or some field, belongs to bootstrap. */
  ghost predicate MentionsBootstrap(r: Request)
  {
    || "x-rpackit-bootstrap" in r.headers
    || exists before, after ::
         StandsIn("__rpackit_bootstrap", Cookies.PercentDecode(r.path), '/', before, after)
  }

  /** What the browser's request had to satisfy. */
  ghost predicate Authorized(p: Proxy, admitted: Admitted, r: Request)
  {
    && FromOurPage(p, r, admitted.websocketUpgrade)
    && Cookies.Authentic(Values(r.headers, "cookie"), p.sessionMatches)
    && !AsksForSession(r) && !MentionsBootstrap(r)
  }

  lemma ChecksAreAsStated(p: Proxy, r: Request, websocket: bool)
    ensures OriginAllowed(p, r, websocket) <==> FromOurPage(p, r, websocket)
    ensures IsBootstrap(r) <==> AsksForSession(r)
    ensures BootstrapHeaderValid(p, r) <==> ProvesBootstrap(p, r)
    ensures ReferencesBootstrap(r.path) || BOOTSTRAP_HEADER in r.headers <==> MentionsBootstrap(r)
  {
    hide Split, StandsIn, Cookies.PercentDecode;
    PartsAreExact(BOOTSTRAP_SEGMENT, Cookies.PercentDecode(r.path), '/');
    var values := Values(r.headers, BOOTSTRAP_HEADER);
    if |values| == 1 { assert values == [values[0]]; }
  }

  ghost predicate AdmittedTokens(tokens: seq<string>)
  {
    forall i :: 0 <= i < |tokens| ==> !IsProtectedTarget(tokens[i])
  }

  /** The fields the HTTP path is free to remove or rewrite. */
  ghost predicate Touched(tokens: seq<string>, name: string)
  {
    name in HOP_BY_HOP || name in tokens || IsForwarding(name) || name in {"host", "origin", "cookie"}
  }

  /** The Cookie field that must go on, when stripping succeeded. */
  ghost function ForwardedCookie(p: Proxy, r: Request): seq<string>
  {
    match Cookies.Strip(Values(r.headers, "cookie"), p.sessionMatches)
    case Ok(Some(cookie)) => [cookie]
    case _ => []
  }

  lemma StrippedCookieIsForeign(p: Proxy, r: Request)
    requires Cookies.Strip(Values(r.headers, "cookie"), p.sessionMatches).Ok?
    ensures var cookie := Cookies.Strip(Values(r.headers, "cookie"), p.sessionMatches).value;
            CookieIsForeign(WithCookie(r.headers, cookie))
    ensures var cookie := Cookies.Strip(Values(r.headers, "cookie"), p.sessionMatches).value;
            Values(WithCookie(r.headers, cookie), "cookie") == ForwardedCookie(p, r)
  {
    hide Cookies.Strip, Cookies.IsReserved, Cookies.Segments, Cookies.NameOf;
    Cookies.StrippingIsExact(Values(r.headers, "cookie"), p.sessionMatches);
  }

  lemma NotForwarding(name: string)
    requires name != [] && name[0] != 'x' && name[0] != 'f'
    ensures !IsForwarding(name)
  {
    assert "x-forwarded-"[0] == 'x' && "x-original-"[0] == 'x';
  }

  lemma HttpIsClean(p: Proxy, h: HeaderMap, tokens: seq<string>)
    requires AdmittedTokens(tokens) && CookieIsForeign(h)
    ensures var out := NormalizedHttp(p, h, tokens);
            && Clean(p, out)
            && Values(out, "cookie") == Values(h, "cookie")
            && ("origin" in out <==> "origin" in h)
            && NoneNominated(out, tokens)
            && (forall name :: !Touched(tokens, name) ==> Values(out, name) == Values(h, name))
  {
    hide Cookies.IsReserved, Cookies.Segments, Cookies.NameOf, IsForwarding, Stripped, UpstreamOrigin;
    var out := NormalizedHttp(p, h, tokens);
    StrippedKeeps(h, tokens);
    NotForwarding("host");
    NotForwarding(PROTECTED_HEADER);
    NotForwarding("origin");
    InsertedNamesAreNotNominated(tokens);
    assert Values(out, "cookie") == Values(h, "cookie");
    assert Values(out, "origin") == [] || Values(out, "origin") == [UpstreamOrigin(p)];
  }

  /** Section 7.6.1 of RFC 9110: neither hop-by-hop nor nominated fields go on;
      the secret is the proxy's own. */
  ghost predicate NoneNominated(h: HeaderMap, tokens: seq<string>)
  {
    forall name :: name in h ==> name !in tokens && (name in HOP_BY_HOP ==> name == PROTECTED_HEADER)
  }

  lemma InsertedNamesAreNotNominated(tokens: seq<string>)
    requires AdmittedTokens(tokens)
    ensures "host" !in tokens && "origin" !in tokens && PROTECTED_HEADER !in tokens
    ensures "host" !in HOP_BY_HOP && "origin" !in HOP_BY_HOP
  {
    hide IsForwarding;
    assert IsProtectedTarget("host") && IsProtectedTarget("origin") && IsProtectedTarget(PROTECTED_HEADER);
  }

  lemma StrippedKeeps(h: HeaderMap, tokens: seq<string>)
    requires AdmittedTokens(tokens)
    ensures var s := Stripped(h, tokens);
            && Values(s, "cookie") == Values(h, "cookie")
            && ("origin" in s <==> "origin" in h)
            && BOOTSTRAP_HEADER !in s
            && (forall name :: name in s ==> !IsForwarding(name) && name !in HOP_BY_HOP && name !in tokens)
            && (forall name :: !Touched(tokens, name) ==> Values(s, name) == Values(h, name))
  {
    hide IsForwarding;
    ProtectedNames();
    assert "cookie" !in HOP_BY_HOP && "origin" !in HOP_BY_HOP;
  }

  lemma ProtectedNames()
    ensures IsProtectedTarget("cookie") && IsProtectedTarget("origin")
    ensures !IsForwarding("cookie") && !IsForwarding("origin")
  {
    hide IsForwarding;
    NotForwarding("cookie");
    NotForwarding("origin");
  }

  const WEBSOCKET_NAMES: set<string> :=
    {"host", "connection", "upgrade", "sec-websocket-version", "sec-websocket-key", "origin",
     "sec-websocket-protocol", "cookie", PROTECTED_HEADER}

  lemma WebSocketNames(p: Proxy, h: HeaderMap)
    requires |Values(h, "sec-websocket-key")| == 1 && Protocols(h).Some?
    ensures UpstreamWebSocket(p, h).Keys <= WEBSOCKET_NAMES
  {
    hide Protocols, Join;
  }

  lemma WebSocketNameIsPlain(name: string)
    requires name in WEBSOCKET_NAMES
    ensures !IsForwarding(name) && name != BOOTSTRAP_HEADER && name != "sec-websocket-extensions"
  {
    hide IsForwarding;
    assert name[0] != 'x' && name[0] != 'f';
    NotForwarding(name);
    assert BOOTSTRAP_HEADER[0] == 'x';
  }

  lemma WebSocketValues(p: Proxy, h: HeaderMap)
    requires |Values(h, "sec-websocket-key")| == 1 && Protocols(h).Some?
    ensures var out := UpstreamWebSocket(p, h);
            && Values(out, PROTECTED_HEADER) == [p.secret]
            && Values(out, "host") == [p.upstream]
            && Values(out, "origin") == [UpstreamOrigin(p)]
  {
    hide Protocols, Join, UpstreamOrigin;
  }

  /** A version-13 upgrade with the browser's key and without extensions. */
  ghost predicate IsHandshake(out: HeaderMap, h: HeaderMap)
  {
    && Values(out, "connection") == ["Upgrade"] && Values(out, "upgrade") == ["websocket"]
    && Values(out, "sec-websocket-version") == ["13"]
    && Values(out, "sec-websocket-key") == Values(h, "sec-websocket-key")
    && "sec-websocket-extensions" !in out
  }

  lemma WebSocketUpgradeValues(p: Proxy, h: HeaderMap)
    requires |Values(h, "sec-websocket-key")| == 1 && Protocols(h).Some?
    ensures var out := UpstreamWebSocket(p, h);
            && Values(out, "connection") == ["Upgrade"] && Values(out, "upgrade") == ["websocket"]
            && Values(out, "sec-websocket-version") == ["13"]
            && Values(out, "sec-websocket-key") == Values(h, "sec-websocket-key")
  {
    hide Protocols, Join, UpstreamOrigin;
  }

  lemma WebSocketCookie(p: Proxy, h: HeaderMap)
    requires |Values(h, "sec-websocket-key")| == 1 && Protocols(h).Some?
    requires |Values(h, "cookie")| <= 1
    ensures Values(UpstreamWebSocket(p, h), "cookie") == Values(h, "cookie")
  {
    hide Protocols, Join, UpstreamOrigin;
  }

  lemma WebSocketIsClean(p: Proxy, h: HeaderMap)
    requires CookieIsForeign(h)
    requires |Values(h, "sec-websocket-key")| == 1 && Protocols(h).Some?
    ensures Clean(p, UpstreamWebSocket(p, h))
    ensures Values(UpstreamWebSocket(p, h), "cookie") == Values(h, "cookie")
    ensures IsHandshake(UpstreamWebSocket(p, h), h)
  {
    hide Cookies.IsReserved, Cookies.Segments, Cookies.NameOf, Protocols, UpstreamWebSocket, UpstreamOrigin,
      IsForwarding;
    WebSocketNames(p, h);
    WebSocketValues(p, h);
    WebSocketUpgradeValues(p, h);
    WebSocketCookie(p, h);
    forall name | name in UpstreamWebSocket(p, h)
      ensures !IsForwarding(name) && name != BOOTSTRAP_HEADER && name != "sec-websocket-extensions"
    {
      WebSocketNameIsPlain(name);
    }
  }

  /** Main result. Every admitted request that reaches the upstream, by either
      path, passed the Origin and session checks, is clean, and still carries
      its application cookies; on the HTTP path a connection-nominated token
      cannot remove Origin or Cookie, and every field that is not hop-by-hop,
      nominated, forwarding or rewritten keeps its values in order. */
  lemma ForwardedRequestsAreClean(
      p: Proxy, authority: string, maxBody: nat, trim: string -> string, r: Request)
    requires Admit(r.headers, authority, maxBody, trim).Ok?
    ensures var admitted := Admit(r.headers, authority, maxBody, trim).value;
            var d := Decide(p, admitted, r);
            d.ForwardHttp? || d.ForwardWebSocket? ==>
              && Authorized(p, admitted, r)
              && Clean(p, d.headers)
              && Values(d.headers, "cookie") == ForwardedCookie(p, r)
              && (d.ForwardHttp? ==>
                    && NoneNominated(d.headers, admitted.connectionTokens)
                    && ("origin" in d.headers <==> "origin" in r.headers)
                    && forall name :: !Touched(admitted.connectionTokens, name) ==>
                         Values(d.headers, name) == Values(r.headers, name))
              && (d.ForwardWebSocket? ==> IsHandshake(d.headers, r.headers))
  {
    hide Cookies.Strip, Cookies.IsReserved, Cookies.Segments, Cookies.NameOf, NormalizedHttp, UpstreamWebSocket,
      ReferencesBootstrap, WebSocketShape, IsBootstrap, Clean, CookieIsForeign, NoneNominated, Authorized,
      OriginAllowed;
    var admitted := Admit(r.headers, authority, maxBody, trim).value;
    var d := Decide(p, admitted, r);
    if d.ForwardHttp? || d.ForwardWebSocket? {
      AuthorizedRequestsAreForwarded(p, admitted, r);
      Cookies.StrippingIsExact(Values(r.headers, "cookie"), p.sessionMatches);
      StrippedCookieIsForeign(p, r);
      var h := WithCookie(r.headers, Cookies.Strip(Values(r.headers, "cookie"), p.sessionMatches).value);
      if d.ForwardHttp? {
        AdmittedTokensAreSafe(r.headers, authority, maxBody, trim);
        HttpIsClean(p, h, admitted.connectionTokens);
        forall name | !Touched(admitted.connectionTokens, name)
          ensures Values(d.headers, name) == Values(r.headers, name)
        {
          assert name != "cookie";
        }
      } else {
        WebSocketShapeGivesOffer(p, r.(headers := h));
        WebSocketIsClean(p, h);
        assert Values(h, "sec-websocket-key") == Values(r.headers, "sec-websocket-key");
      }
    }
  }

  /** Main result on decisions, all of them and both ways: which answer a
      request gets follows from its verb, path and fields alone. */
  lemma AuthorizedRequestsAreForwarded(p: Proxy, admitted: Admitted, r: Request)
    ensures var d := Decide(p, admitted, r);
            && (d.ForwardHttp? <==> Authorized(p, admitted, r) && !admitted.websocketUpgrade)
            && (d.ForwardWebSocket? <==>
                  Authorized(p, admitted, r) && admitted.websocketUpgrade && WebSocketShape(p, r))
            && (d.BadGateway? <==>
                  Authorized(p, admitted, r) && admitted.websocketUpgrade && !WebSocketShape(p, r))
            && (d.Claim? <==> AsksForSession(r))
            && (d.Claim? ==> (d.valid <==> ProvesBootstrap(p, r)))
            && (d.Reject? <==> !AsksForSession(r) && MentionsBootstrap(r))
            && (d.Forbid? <==>
                  !AsksForSession(r) && !MentionsBootstrap(r) && !FromOurPage(p, r, admitted.websocketUpgrade))
            && (d.Unauthorized? <==>
                  && !AsksForSession(r) && !MentionsBootstrap(r) && FromOurPage(p, r, admitted.websocketUpgrade)
                  && !Cookies.Authentic(Values(r.headers, "cookie"), p.sessionMatches))
  {
    hide Cookies.Strip, IsBootstrap, ReferencesBootstrap, OriginAllowed, WebSocketShape, NormalizedHttp,
      UpstreamWebSocket, Cookies.Authentic, AsksForSession, MentionsBootstrap, FromOurPage, ProvesBootstrap,
      BootstrapHeaderValid;
    ChecksAreAsStated(p, r, admitted.websocketUpgrade);
    var stripped := Cookies.Strip(Values(r.headers, "cookie"), p.sessionMatches);
    Cookies.StrippingIsExact(Values(r.headers, "cookie"), p.sessionMatches);
    if stripped.Ok? { ShapeIgnoresCookies(p, r, stripped.value); }
  }

  lemma ShapeIgnoresCookies(p: Proxy, r: Request, cookie: Option<string>)
    ensures WebSocketShape(p, r.(headers := WithCookie(r.headers, cookie))) <==> WebSocketShape(p, r)
  {
    hide ReadProtocols;
    var h := WithCookie(r.headers, cookie);
    assert forall name :: name != "cookie" ==> Values(h, name) == Values(r.headers, name);
  }

  lemma AdmittedTokensAreSafe(h: HeaderMap, authority: string, maxBody: nat, trim: string -> string)
    requires Admit(h, authority, maxBody, trim).Ok?
    ensures AdmittedTokens(Admit(h, authority, maxBody, trim).value.connectionTokens)
  {
    hide HasAmbiguity, FramingFault, ConnectionTokens, Upgrade;
  }

  lemma WebSocketShapeGivesOffer(p: Proxy, r: Request)
    requires WebSocketShape(p, r)
    ensures |Values(r.headers, "sec-websocket-key")| == 1 && Protocols(r.headers).Some?
  {
  }

  // -------------------------------------------------- offered subprotocols

  ghost predicate IsSubprotocol(s: string) { IsToken(s) && IsTrimmed(s) && ',' !in s }

  lemma {:induction false} ProtocolsAreTokens(parts: seq<string>, before: seq<string>)
    requires ReadProtocols(parts, before).Some?
    requires forall i :: 0 <= i < |before| ==> IsSubprotocol(before[i])
    ensures var r := ReadProtocols(parts, before).value;
            && r == before + TrimAll(parts)
            && forall i :: 0 <= i < |r| ==> IsSubprotocol(r[i])
    decreases |parts|
  {
    hide Trim, IsToken, IsSubprotocol, TrimAll;
    if parts == [] {
      assert TrimAll(parts) == [];
      assert before + [] == before;
    } else {
      var protocol := Trim(parts[0]);
      TokenIsSubprotocol(parts[0]);
      ProtocolsAreTokens(parts[1..], before + [protocol]);
      assert TrimAll(parts) == [protocol] + TrimAll(parts[1..]);
      assert before + [protocol] + TrimAll(parts[1..]) == before + ([protocol] + TrimAll(parts[1..]));
    }
  }

  lemma TokenIsSubprotocol(part: string)
    requires IsToken(Trim(part))
    ensures IsSubprotocol(Trim(part))
  {
    hide Trim;
    TrimFacts(part);
    assert !IsTokenChar(',');
  }

  /** The upstream is offered exactly the subprotocols the browser offered. */
  lemma ProtocolOfferSurvives(p: Proxy, h: HeaderMap)
    requires |Values(h, "sec-websocket-key")| == 1 && Protocols(h).Some?
    ensures Protocols(UpstreamWebSocket(p, h)) == Protocols(h)
  {
    var protocols := Protocols(h).value;
    var out := UpstreamWebSocket(p, h);
    if protocols != [] {
      var values := Values(h, "sec-websocket-protocol");
      var parts := Split(values[0], ',');
      ProtocolsAreTokens(parts, []);
      assert [] + TrimAll(parts) == TrimAll(parts);
      assert [','] + " " == ", ";
      JoinedReadsBack(protocols, ',', " ");
      assert Values(out, "sec-websocket-protocol") == [Join(protocols, ", ")];
      SameTrimmedSameProtocols(parts, Split(Join(protocols, ", "), ','), []);
      ProtocolsAreVisible(protocols);
    } else {
      if Values(h, "sec-websocket-protocol") != [] {
        ProtocolsAreTokens(Split(Values(h, "sec-websocket-protocol")[0], ','), []);
      }
      assert Values(out, "sec-websocket-protocol") == [];
    }
  }

  lemma {:induction false} SameTrimmedSameProtocols(a: seq<string>, b: seq<string>, before: seq<string>)
    requires TrimAll(a) == TrimAll(b)
    ensures ReadProtocols(a, before) == ReadProtocols(b, before)
    decreases |a|
  {
    assert |a| == |TrimAll(a)| == |TrimAll(b)| == |b|;
    if a != [] {
      assert TrimAll(a)[0] == Trim(a[0]) && TrimAll(b)[0] == Trim(b[0]);
      assert TrimAll(a)[1..] == TrimAll(a[1..]) && TrimAll(b)[1..] == TrimAll(b[1..]);
      SameTrimmedSameProtocols(a[1..], b[1..], before + [Trim(a[0])]);
    }
  }

  lemma ProtocolsAreVisible(protocols: seq<string>)
    requires forall i :: 0 <= i < |protocols| ==> IsToken(protocols[i])
    ensures IsVisible(Join(protocols, ", "))
  {
    forall i | 0 <= i < |protocols| ensures IsVisible(protocols[i]) {
      forall k | 0 <= k < |protocols[i]| ensures protocols[i][k] == '\t' || ' ' <= protocols[i][k] <= '~' {
        assert IsTokenChar(protocols[i][k]);
        TokenCharIsVisible(protocols[i][k]);
      }
    }
    JoinIsVisible(protocols, ", ");
  }

  lemma TokenCharIsVisible(c: char)
    requires IsTokenChar(c)
    ensures ' ' <= c <= '~'
  {
  }

  // -------------------------------------------------------- rules in words

  lemma CleanIsAsStated(p: Proxy, h: HeaderMap)
    ensures Clean(p, h) <==>
              && Values(h, "shiny-shared-secret") == [p.secret]
              && Values(h, "host") == [p.upstream]
              && Values(h, "origin") in {[], ["http://" + p.upstream]}
              && "x-rpackit-bootstrap" !in h
              && (forall name :: name in h ==> !TellsOrigin(name))
              && CookieIsForeign(h)
  {
    hide CookieIsForeign, TellsOrigin, IsForwarding;
    forall name ensures IsForwarding(name) <==> TellsOrigin(name) { ProtectedNamesAre(name); }
  }

  /** The fields that concern one connection only (section 7.6.1 of RFC 9110),
      and those the proxy sets itself. */
  lemma HopByHopAre(name: string)
    ensures name in HOP_BY_HOP <==>
              || name == "connection" || name == "proxy-connection" || name == "keep-alive" || name == "te"
              || name == "trailer" || name == "upgrade" || name == "transfer-encoding" || name == "content-length"
              || name == "proxy-authorization" || name == "proxy-authenticate"
              || name == "shiny-shared-secret" || name == "x-rpackit-bootstrap"
  {
  }

  lemma {:induction false} ReadProtocolsIsExact(parts: seq<string>, protocols: seq<string>)
    requires Distinct(protocols)
    ensures ReadProtocols(parts, protocols)
         == if (forall i :: 0 <= i < |parts| ==> IsToken(Trim(parts[i]))) && Distinct(protocols + TrimAll(parts))
            then Some(protocols + TrimAll(parts)) else None
    decreases |parts|
  {
    hide IsToken, Trim;
    var all := protocols + TrimAll(parts);
    if parts == [] {
      assert all == protocols;
    } else {
      var protocol := Trim(parts[0]);
      assert all[|protocols|] == protocol;
      assert (forall i :: 0 <= i < |parts| ==> IsToken(Trim(parts[i]))) <==>
             IsToken(protocol) && forall i :: 0 <= i < |parts[1..]| ==> IsToken(Trim(parts[1..][i])) by {
        assert forall i :: 0 < i < |parts| ==> parts[i] == parts[1..][i - 1];
      }
      if protocol in protocols {
        var i :| 0 <= i < |protocols| && protocols[i] == protocol;
        assert all[i] == all[|protocols|];
      } else if IsToken(protocol) {
        ReadProtocolsIsExact(parts[1..], protocols + [protocol]);
        assert (protocols + [protocol]) + TrimAll(parts[1..]) == all;
      }
    }
  }

  /** One field of distinct tokens, or none. */
  ghost predicate OffersTokens(h: HeaderMap)
  {
    var values := Values(h, "sec-websocket-protocol");
    || values == []
    || exists v ::
         && values == [v] && IsVisible(v) && Distinct(TrimAll(Split(v, ',')))
         && forall i :: 0 <= i < |Split(v, ',')| ==> IsToken(Trim(Split(v, ',')[i]))
  }

  lemma OffersAreExact(h: HeaderMap)
    ensures Protocols(h).Some? <==> OffersTokens(h)
  {
    hide Split, Trim, IsToken, ReadProtocols, IsVisible;
    var values := Values(h, "sec-websocket-protocol");
    if |values| == 1 {
      var parts := Split(values[0], ',');
      assert values == [values[0]];
      assert [] + TrimAll(parts) == TrimAll(parts);
      ReadProtocolsIsExact(parts, []);
    }
  }

  /** A version-13 WebSocket handshake without a body (section 4.1 of RFC 6455). */
  lemma UpgradesAreExact(p: Proxy, r: Request)
    ensures WebSocketShape(p, r) <==>
              && r.verb == "GET"
              && (forall name :: name in {"content-length", "transfer-encoding", "trailer"} ==> name !in r.headers)
              && (exists u :: Values(r.headers, "upgrade") == [u] && Lower(u) == "websocket")
              && Values(r.headers, "sec-websocket-version") == ["13"]
              && Values(r.headers, "origin") == [p.origin]
              && (exists key :: Values(r.headers, "sec-websocket-key") == [key] && p.validKey(key))
              && p.validExtensions(Values(r.headers, "sec-websocket-extensions"))
              && OffersTokens(r.headers)
  {
    hide Lower, Protocols, OffersTokens;
    OffersAreExact(r.headers);
    var upgrades, keys := Values(r.headers, "upgrade"), Values(r.headers, "sec-websocket-key");
    assert |upgrades| == 1 ==> upgrades == [upgrades[0]];
    assert |keys| == 1 ==> keys == [keys[0]];
  }
}
