/**
 * Whose code a client can redeem (packages/oauth/src/oauth.service.ts): the token endpoint compares redirect URIs but
 * never the client a code was issued to.
 */
module OAuthClients {
  import opened Wrappers
  import opened AuthorizationCode
  import opened OAuthExchange

  /** `loadClient`, the same throughout a run. */
  type Registry = string -> Option<Client>

  /** The client may be issued codes for the URI. */
  predicate Registered(load: Registry, clientId: string, uri: string) {
    load(clientId).Some? && load(clientId).value.isActive && uri in load(clientId).value.redirectUris
  }

  /** The request passes its client's checks. */
  predicate Admitted(h: Hashing, load: Registry, r: Request) {
    ClientError(h, load(r.clientId), r).None?
  }

  /** Codes are issued to registered clients for their own URIs, and a request is checked against its own client. */
  predicate StepFits(load: Registry, s: State, step: Step) {
    match step
    case IssueCode(record) => Registered(load, record.grant.clientId, record.redirectUri)
    case CheckClient(id, client) => id in s.exchanges ==> client == load(s.exchanges[id].request.clientId)
    case _ => true
  }

  ghost predicate Served(h: Hashing, load: Registry, steps: seq<Step>) {
    forall i :: 0 <= i < |steps| ==> StepFits(load, Run(h, steps[..i]), steps[i])
  }

  /** What is issued was granted to the client that presents the code. */
  predicate OwnGrant(e: Exchange) {
    e.Issued? ==> e.read.record.grant.clientId == e.request.clientId
  }

  // ---------------------------------------------------------------------------
  // Where no redirect URI is shared
  // ---------------------------------------------------------------------------

  predicate Past(e: Exchange) {
    e.ClientChecked? || e.Found? || e.Redeemed? || e.Issued?
  }

  ghost predicate ExchangeFits(h: Hashing, load: Registry, e: Exchange) {
    && (Past(e) ==> Admitted(h, load, e.request))
    && (ReadOf(e).Some? ==>
          Registered(load, ReadOf(e).value.record.grant.clientId, ReadOf(e).value.record.redirectUri))
  }

  ghost predicate AllFit(h: Hashing, load: Registry, s: State) {
    && (forall r :: r in s.records ==> Registered(load, r.grant.clientId, r.redirectUri))
    && (forall i :: i in s.exchanges ==> ExchangeFits(h, load, s.exchanges[i]))
  }

  lemma {:induction false} AdvanceFits(h: Hashing, load: Registry, records: seq<Record>, e: Exchange, step: Step)
    requires forall r :: r in records ==> Registered(load, r.grant.clientId, r.redirectUri)
    requires ExchangeFits(h, load, e)
    requires step.CheckClient? ==> step.client == load(e.request.clientId)
    ensures ExchangeFits(h, load, Advance(h, records, e, step))
  {
    hide FindByHash, GrantError, ClientError, Get, Registered;
    FindByHashMember(records, h.sha256(e.request.code));
  }

  lemma {:induction false} StoreFits(load: Registry, records: seq<Record>, id: string, at: int)
    requires forall r :: r in records ==> Registered(load, r.grant.clientId, r.redirectUri)
    ensures forall r :: r in Consumed(records, id, at) ==> Registered(load, r.grant.clientId, r.redirectUri)
  {
    hide Registered, Get, Set;
    if Consumable(records, id) { SetMembers(records, Get(records, id).value.(consumedAt := Some(at))); }
  }

  lemma {:induction false} StepKeepsFit(h: Hashing, load: Registry, s: State, step: Step)
    requires AllFit(h, load, s) && StepFits(load, s, step)
    ensures AllFit(h, load, Apply(h, s, step))
  {
    hide Registered, ExchangeFits, Advance, Get, Set, Consumed, Consumable;
    match step
    case IssueCode(record) => SetMembers(s.records, record);
    case Arrive(id, request) => ArrivedFits(h, load, request);
    case CheckClient(id, _) => AdvanceInFits(h, load, s, id, step);
    case FindCode(id, _) => AdvanceInFits(h, load, s, id, step);
    case ConsumeCode(id, _) => AdvanceInFits(h, load, s, id, step);
    case Decide(id) => AdvanceInFits(h, load, s, id, step);
  }

  lemma {:induction false} AdvanceInFits(h: Hashing, load: Registry, s: State, id: nat, step: Step)
    requires AllFit(h, load, s)
    requires step.CheckClient? && id in s.exchanges ==> step.client == load(s.exchanges[id].request.clientId)
    ensures AllFit(h, load, AdvanceIn(h, s, id, step))
  {
    hide Registered, ExchangeFits, Advance, Get, Set, Consumed, Consumable;
    if id in s.exchanges {
      var e := s.exchanges[id];
      AdvanceFits(h, load, s.records, e, step);
      if e.Found? && step.ConsumeCode? { StoreFits(load, s.records, e.read.record.id, step.now); }
    }
  }

  lemma {:induction false} ArrivedFits(h: Hashing, load: Registry, r: Request)
    ensures ExchangeFits(h, load, Arrived(r))
  {
  }

  lemma {:induction false} RunFits(h: Hashing, load: Registry, steps: seq<Step>)
    requires Served(h, load, steps)
    ensures AllFit(h, load, Run(h, steps))
  {
    hide Apply, StepFits, ExchangeFits, Registered;
    if steps == [] {
    } else {
      var init, last := steps[..|steps| - 1], steps[|steps| - 1];
      forall i | 0 <= i < |init|
        ensures StepFits(load, Run(h, init[..i]), init[i])
      {
        assert init[..i] == steps[..i];
      }
      RunFits(h, load, init);
      assert StepFits(load, Run(h, steps[..|steps| - 1]), last);
      StepKeepsFit(h, load, Run(h, init), last);
    }
  }

  /**
   * Over every run, whatever is issued comes from an exchange whose client is known and active, has authenticated if it
   * is confidential, and lists the redirect URI; where the stored hash is that of a secret, with that secret.
   */
  lemma {:induction false} IssuedToAuthenticClient(h: Hashing, load: Registry, steps: seq<Step>, i: nat)
    requires CollisionFree(h.sha256) && Served(h, load, steps)
    requires i in Run(h, steps).exchanges && Run(h, steps).exchanges[i].Issued?
    ensures
      var r := Run(h, steps).exchanges[i].request;
      && load(r.clientId).Some?
      && var c := load(r.clientId).value;
         && c.isActive && Authentic(h, c, r) && r.redirectUri in c.redirectUris
         && (forall secret :: c.isConfidential && c.secretHash == Some(h.sha256(secret)) ==>
               r.clientSecret == Some(secret))
  {
    hide Run, Served, ClientError, Registered;
    RunFits(h, load, steps);
    var e := Run(h, steps).exchanges[i];
    assert ExchangeFits(h, load, e);
    ClientErrorIff(h, load(e.request.clientId), e.request);
  }

  /** Two clients share a redirect URI: one may be issued codes for it, the other's request with it is admitted. */
  ghost predicate Shares(h: Hashing, load: Registry, a: string, r: Request) {
    a != r.clientId && Registered(load, a, r.redirectUri) && Admitted(h, load, r)
  }

  lemma {:induction false} UnsharedKeepsGrants(h: Hashing, load: Registry, steps: seq<Step>, i: nat)
    requires Served(h, load, steps) && i in Run(h, steps).exchanges
    requires forall a, r :: !Shares(h, load, a, r)
    ensures OwnGrant(Run(h, steps).exchanges[i])
  {
    hide Run, Served, Registered, Admitted, FindByHash;
    RunFits(h, load, steps);
    var e := Run(h, steps).exchanges[i];
    assert ExchangeFits(h, load, e);
    if e.Issued? {
      IssuedIsEarned(h, steps, i);
      assert !Shares(h, load, e.read.record.grant.clientId, e.request);
    }
  }

  // ---------------------------------------------------------------------------
  // Where one is shared
  // ---------------------------------------------------------------------------

  /** A code issued to client a, presented by r. */
  function ForeignRecord(h: Hashing, a: string, r: Request): Record {
    Record("", h.sha256(r.code), Grant("", "", a, "", "", []), r.redirectUri, None, None, 1, None)
  }

  function ForeignRun(h: Hashing, load: Registry, a: string, r: Request): seq<Step> {
    [IssueCode(ForeignRecord(h, a, r)), Arrive(0, r), CheckClient(0, load(r.clientId)), FindCode(0, 0),
     ConsumeCode(0, 0), Decide(0)]
  }

  lemma {:induction false} RunNext(h: Hashing, steps: seq<Step>, n: nat)
    requires n < |steps|
    ensures Run(h, steps[..n + 1]) == Apply(h, Run(h, steps[..n]), steps[n])
  {
    assert steps[..n + 1][..n] == steps[..n];
  }

  lemma {:induction false} OneRecord(r: Record)
    ensures Set([], r) == [r] && Get([], r.id) == None && Get([r], r.id) == Some(r)
    ensures FindByHash([r], r.codeHash) == Some(r)
  {
  }

  /** The states of the run, up to the issuing. */
  lemma {:induction false} ForeignStates(h: Hashing, load: Registry, a: string, r: Request)
    requires Shares(h, load, a, r)
    ensures
      var steps, record := ForeignRun(h, load, a, r), ForeignRecord(h, a, r);
      && Run(h, steps[..1]) == State([record], map[])
      && Run(h, steps[..2]) == State([record], map[0 := Arrived(r)])
      && Run(h, steps[..3]) == State([record], map[0 := ClientChecked(r)])
      && Run(h, steps[..4]) == State([record], map[0 := Found(r, Read(record, 0))])
      && Run(h, steps[..5]).exchanges == map[0 := Redeemed(r, Read(record, 0))]
      && Run(h, steps).exchanges == map[0 := Issued(r, Read(record, 0))]
  {
    hide Run, Set, Get, FindByHash, ClientError, Registered;
    var steps, record := ForeignRun(h, load, a, r), ForeignRecord(h, a, r);
    NothingRun(h);
    OneRecord(record);
    assert steps[..0] == [] && steps[..6] == steps;
    RunNext(h, steps, 0);
    RunNext(h, steps, 1);
    RunNext(h, steps, 2);
    RunNext(h, steps, 3);
    RunNext(h, steps, 4);
    RunNext(h, steps, 5);
  }

  lemma {:induction false} NothingRun(h: Hashing)
    ensures Run(h, []) == START
  {
  }

  lemma {:induction false} ForeignIsServed(h: Hashing, load: Registry, a: string, r: Request)
    requires Shares(h, load, a, r)
    ensures Served(h, load, ForeignRun(h, load, a, r))
  {
    hide Run, Registered;
    var steps := ForeignRun(h, load, a, r);
    ForeignStates(h, load, a, r);
    forall i | 0 <= i < |steps|
      ensures StepFits(load, Run(h, steps[..i]), steps[i])
    {
    }
  }

  /**
   * Over every run of the token endpoint, whatever is issued was granted to the client that presents the code, if and
   * only if no redirect URI is shared: where a client may be issued codes for a URI with which another client's request
   * is admitted, the other one can redeem its code.
   */
  lemma {:induction false} GrantsStayWithClientIff(h: Hashing, load: Registry)
    ensures
      (forall steps, i ::
         Served(h, load, steps) && i in Run(h, steps).exchanges ==> OwnGrant(Run(h, steps).exchanges[i]))
      <==> (forall a, r :: !Shares(h, load, a, r))
  {
    hide Run, Served, Shares, OwnGrant, ForeignRun;
    if forall a, r :: !Shares(h, load, a, r) {
      forall steps, i | Served(h, load, steps) && i in Run(h, steps).exchanges
        ensures OwnGrant(Run(h, steps).exchanges[i])
      {
        UnsharedKeepsGrants(h, load, steps, i);
      }
    } else {
      var a, r :| Shares(h, load, a, r);
      var steps := ForeignRun(h, load, a, r);
      ForeignIsServed(h, load, a, r);
      ForeignStates(h, load, a, r);
      ForeignGrant(h, load, a, r);
      assert 0 in Run(h, steps).exchanges;
    }
  }

  lemma {:induction false} ForeignGrant(h: Hashing, load: Registry, a: string, r: Request)
    requires Shares(h, load, a, r)
    ensures !OwnGrant(Issued(r, Read(ForeignRecord(h, a, r), 0)))
  {
  }
}
