/** Concurrent requests around the one-shot bootstrap flag. Requests share
    nothing else, so a run is an interleaving of their steps with the flag's
    atomic compare-and-exchange. */
module Bootstrap {
  import opened Common
  import opened Headers
  import opened Admission
  import opened Pipeline

  datatype Phase = Arrived | Claiming | Issued | Answered | Sent(headers: HeaderMap)

  datatype Visit = Visit(admitted: Admitted, request: Request, phase: Phase)

  datatype World = World(consumed: bool, visits: map<nat, Visit>)

  datatype Step =
    | Arrive(id: nat, admitted: Admitted, request: Request)
    | Examine(id: nat)
    | Exchange(id: nat)

  /** Admission ran on the same head. */
  ghost predicate WasAdmitted(admitted: Admitted, r: Request)
  {
    exists authority, maxBody, trim :: Admit(r.headers, authority, maxBody, trim) == Ok(admitted)
  }

  function PhaseAfter(d: Decision): Phase
  {
    match d
    case Claim(valid) => if valid then Claiming else Answered
    case ForwardHttp(headers) => Sent(headers)
    case ForwardWebSocket(headers) => Sent(headers)
    case _ => Answered
  }

  function Moved(w: World, id: nat, phase: Phase): World
    requires id in w.visits
  {
    w.(visits := w.visits[id := w.visits[id].(phase := phase)])
  }

  ghost predicate Enabled(w: World, step: Step)
  {
    match step
    case Arrive(id, admitted, request) => id !in w.visits && WasAdmitted(admitted, request)
    case Examine(id) => id in w.visits && w.visits[id].phase == Arrived
    case Exchange(id) => id in w.visits && w.visits[id].phase == Claiming
  }

  ghost function Next(p: Proxy, w: World, step: Step): World
    requires Enabled(w, step)
  {
    match step
    case Arrive(id, admitted, request) =>
      w.(visits := w.visits[id := Visit(admitted, request, Arrived)])
    case Examine(id) =>
      Moved(w, id, PhaseAfter(Decide(p, w.visits[id].admitted, w.visits[id].request)))
    case Exchange(id) =>
      if w.consumed then Moved(w, id, Answered) else Moved(w, id, Issued).(consumed := true)
  }

  ghost predicate IsRun(p: Proxy, steps: seq<Step>, worlds: seq<World>)
  {
    && |worlds| == |steps| + 1
    && worlds[0] == World(false, map[])
    && forall i :: 0 <= i < |steps| ==> Enabled(worlds[i], steps[i]) && worlds[i + 1] == Next(p, worlds[i], steps[i])
  }

  ghost predicate SoundVisit(p: Proxy, v: Visit)
  {
    && WasAdmitted(v.admitted, v.request)
    && (v.phase == Claiming || v.phase == Issued ==>
          AsksForSession(v.request) && ProvesBootstrap(p, v.request))
    && (v.phase.Sent? ==>
          && Authorized(p, v.admitted, v.request)
          && Clean(p, v.phase.headers)
          && !AsksForSession(v.request))
  }

  predicate IsIssued(w: World, id: nat) { id in w.visits && w.visits[id].phase == Issued }

  ghost predicate Inv(p: Proxy, w: World)
  {
    && (forall id :: id in w.visits ==> SoundVisit(p, w.visits[id]))
    && (forall a, b :: IsIssued(w, a) && IsIssued(w, b) ==> a == b)
    && (w.consumed <==> exists id :: IsIssued(w, id))
  }

  lemma DecisionIsSound(p: Proxy, v: Visit)
    requires WasAdmitted(v.admitted, v.request)
    ensures SoundVisit(p, v.(phase := PhaseAfter(Decide(p, v.admitted, v.request))))
    ensures PhaseAfter(Decide(p, v.admitted, v.request)) != Issued
  {
    hide Admit, Clean, Decide, Authorized, AsksForSession, ProvesBootstrap;
    var authority, maxBody, trim :| Admit(v.request.headers, authority, maxBody, trim) == Ok(v.admitted);
    ForwardedRequestsAreClean(p, authority, maxBody, trim, v.request);
    var d := Decide(p, v.admitted, v.request);
    if d.ForwardHttp? || d.ForwardWebSocket? { AuthorizedIsNotBootstrap(p, v); }
    ClaimIsBootstrap(p, v);
  }

  lemma AuthorizedIsNotBootstrap(p: Proxy, v: Visit)
    requires Authorized(p, v.admitted, v.request)
    ensures !AsksForSession(v.request)
  {
  }

  lemma ClaimIsBootstrap(p: Proxy, v: Visit)
    ensures var d := Decide(p, v.admitted, v.request);
            d.Claim? ==> AsksForSession(v.request) && (d.valid <==> ProvesBootstrap(p, v.request))
  {
    hide Decide, AsksForSession, ProvesBootstrap, Authorized, MentionsBootstrap, FromOurPage, WebSocketShape;
    AuthorizedRequestsAreForwarded(p, v.admitted, v.request);
  }

  lemma StepKeepsInv(p: Proxy, w: World, step: Step)
    requires Inv(p, w) && Enabled(w, step)
    ensures Inv(p, Next(p, w, step))
  {
    hide SoundVisit, Decide;
    var w' := Next(p, w, step);
    match step {
      case Arrive(id, admitted, request) =>
        ArrivedIsSound(p, Visit(admitted, request, Arrived));
        KeepsWitness(w, w');
      case Examine(id) =>
        SoundWasAdmitted(p, w.visits[id]);
        DecisionIsSound(p, w.visits[id]);
        KeepsWitness(w, w');
      case Exchange(id) =>
        ClaimingMayIssue(p, w.visits[id]);
        if w.consumed {
          KeepsWitness(w, w');
        } else {
          assert IsIssued(w', id);
          assert forall other :: !IsIssued(w, other);
          assert forall other :: other != id ==> (IsIssued(w', other) <==> IsIssued(w, other));
        }
    }
  }

  lemma KeepsWitness(w: World, w': World)
    requires w'.consumed == w.consumed
    requires forall id :: IsIssued(w, id) <==> IsIssued(w', id)
    ensures (exists id :: IsIssued(w, id)) <==> exists id :: IsIssued(w', id)
  {
    if id :| IsIssued(w, id) { assert IsIssued(w', id); }
    if id :| IsIssued(w', id) { assert IsIssued(w, id); }
  }

  lemma ArrivedIsSound(p: Proxy, v: Visit)
    requires WasAdmitted(v.admitted, v.request) && v.phase == Arrived
    ensures SoundVisit(p, v)
  {
  }

  lemma SoundWasAdmitted(p: Proxy, v: Visit)
    requires SoundVisit(p, v)
    ensures WasAdmitted(v.admitted, v.request)
  {
  }

  lemma ClaimingMayIssue(p: Proxy, v: Visit)
    requires SoundVisit(p, v) && v.phase == Claiming
    ensures SoundVisit(p, v.(phase := Issued)) && SoundVisit(p, v.(phase := Answered))
  {
  }

  lemma {:induction false} RunKeepsInv(p: Proxy, steps: seq<Step>, worlds: seq<World>, i: nat)
    requires IsRun(p, steps, worlds) && i < |worlds|
    ensures Inv(p, worlds[i])
  {
    if i > 0 {
      RunKeepsInv(p, steps, worlds, i - 1);
      StepKeepsInv(p, worlds[i - 1], steps[i - 1]);
    }
  }

  lemma {:induction false} IssuedStays(p: Proxy, steps: seq<Step>, worlds: seq<World>, i: nat, j: nat, id: nat)
    requires IsRun(p, steps, worlds) && i <= j < |worlds|
    requires IsIssued(worlds[i], id)
    ensures IsIssued(worlds[j], id)
    decreases j - i
  {
    hide Decide;
    if i < j {
      assert Enabled(worlds[i], steps[i]);
      IssuedStays(p, steps, worlds, i + 1, j, id);
    }
  }

  /** Main result. In every interleaving of every set of requests, at most one
      response over the whole run carries the session cookie, and only for a
      bootstrap request with exactly one valid header; a bootstrap request is
      never sent upstream; and every request that is sent passed the Origin
      and session checks and is clean. */
  lemma BootstrapIsOneShot(p: Proxy, steps: seq<Step>, worlds: seq<World>, i: nat, j: nat, a: nat, b: nat)
    requires IsRun(p, steps, worlds) && i < |worlds| && j < |worlds|
    requires a in worlds[i].visits && b in worlds[j].visits
    ensures IsIssued(worlds[i], a) && IsIssued(worlds[j], b) ==> a == b
    ensures SoundVisit(p, worlds[i].visits[a])
  {
    hide SoundVisit, Next, Enabled;
    RunKeepsInv(p, steps, worlds, i);
    RunKeepsInv(p, steps, worlds, j);
    if IsIssued(worlds[i], a) && IsIssued(worlds[j], b) {
      if i <= j { IssuedStays(p, steps, worlds, i, j, a); } else { IssuedStays(p, steps, worlds, j, i, b); }
    }
  }

  /** Only a valid bootstrap request moves the flag, and only once. */
  lemma FlagMovesOnlyForValidBootstrap(p: Proxy, w: World, step: Step)
    requires Inv(p, w) && Enabled(w, step)
    ensures w.consumed ==> Next(p, w, step).consumed
    ensures Next(p, w, step).consumed != w.consumed ==>
              && step.Exchange?
              && AsksForSession(w.visits[step.id].request)
              && ProvesBootstrap(p, w.visits[step.id].request)
  {
    hide Decide;
    if step.Exchange? { assert SoundVisit(p, w.visits[step.id]); }
  }

  ghost predicate ExchangedBefore(steps: seq<Step>, i: nat)
    requires i <= |steps|
  {
    exists j :: 0 <= j < i && steps[j].Exchange?
  }

  /** The flag is set exactly when some request has reached the exchange. */
  lemma {:induction false} FlagIsExact(p: Proxy, steps: seq<Step>, worlds: seq<World>, i: nat)
    requires IsRun(p, steps, worlds) && i < |worlds|
    ensures worlds[i].consumed <==> ExchangedBefore(steps, i)
  {
    hide Decide;
    if i > 0 {
      FlagIsExact(p, steps, worlds, i - 1);
      assert Enabled(worlds[i - 1], steps[i - 1]) && worlds[i] == Next(p, worlds[i - 1], steps[i - 1]);
      if ExchangedBefore(steps, i - 1) {
        var j :| 0 <= j < i - 1 && steps[j].Exchange?;
        assert ExchangedBefore(steps, i);
      }
    }
  }

  /** Main result, the other direction: whichever valid request reaches the
      exchange first is given the session cookie, and every later one is
      turned away. */
  lemma FirstExchangeWins(p: Proxy, steps: seq<Step>, worlds: seq<World>, i: nat)
    requires IsRun(p, steps, worlds) && i < |steps| && steps[i].Exchange?
    ensures steps[i].id in worlds[i + 1].visits
    ensures worlds[i + 1].visits[steps[i].id].phase == if ExchangedBefore(steps, i) then Answered else Issued
  {
    hide Decide, ExchangedBefore;
    FlagIsExact(p, steps, worlds, i);
    assert Enabled(worlds[i], steps[i]) && worlds[i + 1] == Next(p, worlds[i], steps[i]);
  }

  /** What examining a request leads to: a claim for exactly the valid bootstrap
      requests, the upstream for exactly the authorized ones, else an answer. */
  lemma ExaminationIsExact(p: Proxy, steps: seq<Step>, worlds: seq<World>, i: nat)
    requires IsRun(p, steps, worlds) && i < |steps| && steps[i].Examine?
    ensures steps[i].id in worlds[i].visits && steps[i].id in worlds[i + 1].visits
    ensures var v := worlds[i].visits[steps[i].id];
            var phase := worlds[i + 1].visits[steps[i].id].phase;
            && (phase == Claiming <==> AsksForSession(v.request) && ProvesBootstrap(p, v.request))
            && (phase.Sent? <==>
                  && Authorized(p, v.admitted, v.request)
                  && (v.admitted.websocketUpgrade ==> WebSocketShape(p, v.request)))
            && (phase == Claiming || phase.Sent? || phase == Answered)
  {
    hide Decide, AsksForSession, ProvesBootstrap, Authorized, WebSocketShape, MentionsBootstrap, FromOurPage;
    assert Enabled(worlds[i], steps[i]) && worlds[i + 1] == Next(p, worlds[i], steps[i]);
    var v := worlds[i].visits[steps[i].id];
    AuthorizedRequestsAreForwarded(p, v.admitted, v.request);
  }
}
