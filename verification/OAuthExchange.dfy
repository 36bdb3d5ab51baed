/**
 * The token endpoint's authorization_code grant (packages/oauth/src/oauth.service.ts) as a protocol: any number of
 * concurrent exchanges, interleaved at every await, with codes being issued meanwhile.
 *
 * An exchange checks the client, reads the code's record, consumes it by compare-and-set, and only then decides.
 */
module OAuthExchange {
  import opened Wrappers
  import opened AuthorizationCode

  datatype Client = Client(redirectUris: seq<string>, isConfidential: bool, secretHash: Option<string>, isActive: bool)

  datatype Request = Request(clientId: string, clientSecret: Option<string>, redirectUri: string, code: string,
                             codeVerifier: Option<string>)

  datatype ExchangeError =
    | UnknownClient | ClientDisabled | ClientAuthFailed | RedirectMismatch | InvalidCode | PkceFailed

  /** A record as this exchange read it, and when. */
  datatype Read = Read(record: Record, at: int)

  datatype Exchange =
    | Arrived(request: Request)
    | ClientChecked(request: Request)
    | Found(request: Request, read: Read)
    | Redeemed(request: Request, read: Read)
    | Issued(request: Request, read: Read)
    | Refused(request: Request, error: ExchangeError, spent: Option<Read>)

  datatype State = State(records: seq<Record>, exchanges: map<nat, Exchange>)

  /** SHA-256 in hex and in base64url. */
  datatype Hashing = Hashing(sha256: string -> string, s256: string -> string)

  datatype Step =
    | IssueCode(record: Record)
    | Arrive(id: nat, request: Request)
    | CheckClient(id: nat, client: Option<Client>)
    | FindCode(id: nat, now: int)
    | ConsumeCode(id: nat, now: int)
    | Decide(id: nat)

  // ---------------------------------------------------------------------------
  // Checks
  // ---------------------------------------------------------------------------

  /** Loading, authenticating and the redirect list, in this order; nothing where all pass. */
  function ClientError(h: Hashing, client: Option<Client>, r: Request): Option<ExchangeError> {
    match client
    case None => Some(UnknownClient)
    case Some(c) =>
      if !c.isActive then Some(ClientDisabled)
      else if c.isConfidential
              && (c.secretHash.None? || c.secretHash.value == "" || r.clientSecret.None? || r.clientSecret.value == ""
                  || h.sha256(r.clientSecret.value) != c.secretHash.value) then Some(ClientAuthFailed)
      else if r.redirectUri !in c.redirectUris then Some(RedirectMismatch)
      else None
  }

  /** A challenge is demanded only where a non-empty one was stored. */
  function GrantError(h: Hashing, record: Record, r: Request): Option<ExchangeError> {
    var verifier := if r.codeVerifier.Some? then r.codeVerifier.value else "";
    if record.redirectUri != r.redirectUri then Some(RedirectMismatch)
    else if record.codeChallenge.Some? && record.codeChallenge.value != ""
            && !VerifyPkce(h.s256, verifier, record.codeChallenge, record.codeChallengeMethod) then Some(PkceFailed)
    else None
  }

  // ---------------------------------------------------------------------------
  // Steps
  // ---------------------------------------------------------------------------

  /** The exchange's own transition; a step that does not fit its phase does nothing. */
  function Advance(h: Hashing, records: seq<Record>, e: Exchange, step: Step): Exchange {
    match (e, step)
    case (Arrived(r), CheckClient(_, client)) =>
      var error := ClientError(h, client, r);
      if error.Some? then Refused(r, error.value, None) else ClientChecked(r)
    case (ClientChecked(r), FindCode(_, now)) =>
      var found := Readable(records, h.sha256(r.code), now);
      if found.None? then Refused(r, InvalidCode, None) else Found(r, Read(found.value, now))
    case (Found(r, read), ConsumeCode(_, _)) =>
      if Consumable(records, read.record.id) then Redeemed(r, read) else Refused(r, InvalidCode, None)
    case (Redeemed(r, read), Decide(_)) =>
      var error := GrantError(h, read.record, r);
      if error.Some? then Refused(r, error.value, Some(read)) else Issued(r, read)
    case _ => e
  }

  /** Only the consume step of an exchange that found a record touches the store. */
  function StoreAfter(records: seq<Record>, e: Exchange, step: Step): seq<Record> {
    if e.Found? && step.ConsumeCode? then Consumed(records, e.read.record.id, step.now) else records
  }

  /** Fresh random ids: a record id or exchange id already in use is not handed out again. */
  function Apply(h: Hashing, s: State, step: Step): State {
    match step
    case IssueCode(record) =>
      if Get(s.records, record.id).None? && record.consumedAt.None? then s.(records := Set(s.records, record)) else s
    case Arrive(id, request) =>
      if id !in s.exchanges then s.(exchanges := s.exchanges[id := Arrived(request)]) else s
    case CheckClient(id, _) => AdvanceIn(h, s, id, step)
    case FindCode(id, _) => AdvanceIn(h, s, id, step)
    case ConsumeCode(id, _) => AdvanceIn(h, s, id, step)
    case Decide(id) => AdvanceIn(h, s, id, step)
  }

  function AdvanceIn(h: Hashing, s: State, id: nat, step: Step): State {
    if id !in s.exchanges then s
    else
      var e := s.exchanges[id];
      State(StoreAfter(s.records, e, step), s.exchanges[id := Advance(h, s.records, e, step)])
  }

  const START := State([], map[])

  /** The state after an interleaving: any finite sequence of steps. */
  function Run(h: Hashing, steps: seq<Step>): State {
    if steps == [] then START else Apply(h, Run(h, steps[..|steps| - 1]), steps[|steps| - 1])
  }

  // ---------------------------------------------------------------------------
  // The invariant of every interleaving
  // ---------------------------------------------------------------------------

  /** The read an exchange has pending or has redeemed. */
  function ReadOf(e: Exchange): Option<Read> {
    match e
    case Found(_, read) => Some(read)
    case Redeemed(_, read) => Some(read)
    case Issued(_, read) => Some(read)
    case Refused(_, _, spent) => spent
    case _ => None
  }

  /** The read whose record this exchange consumed. */
  function Spent(e: Exchange): Option<Read> {
    if e.Found? then None else ReadOf(e)
  }

  /** The read was of a then unconsumed, unexpired record of the presented code, which is still the one found. */
  ghost predicate SoundRead(h: Hashing, records: seq<Record>, r: Request, read: Read) {
    && read.record.consumedAt.None?
    && read.at < read.record.expiresAt
    && read.record.codeHash == h.sha256(r.code)
    && FindByHash(records, h.sha256(r.code)).Some?
    && SameButConsumed(FindByHash(records, h.sha256(r.code)).value, read.record)
  }

  /** The stored record is the one read, possibly consumed since. */
  ghost predicate SameButConsumed(stored: Record, read: Record) {
    stored.(consumedAt := None) == read
  }

  ghost predicate ExchangeInv(h: Hashing, records: seq<Record>, e: Exchange) {
    && (ReadOf(e).Some? ==> SoundRead(h, records, e.request, ReadOf(e).value))
    && (Spent(e).Some? ==> FindByHash(records, h.sha256(e.request.code)).value.consumedAt.Some?)
    && (e.Issued? ==> GrantError(h, e.read.record, e.request).None?)
  }

  /** No two exchanges consumed the same record. */
  ghost predicate OneSpender(exchanges: map<nat, Exchange>) {
    forall i, j ::
      i in exchanges && j in exchanges && i != j && Spent(exchanges[i]).Some? && Spent(exchanges[j]).Some? ==>
      Spent(exchanges[i]).value.record.id != Spent(exchanges[j]).value.record.id
  }

  ghost predicate Inv(h: Hashing, s: State) {
    && UniqueIds(s.records)
    && (forall i :: i in s.exchanges ==> ExchangeInv(h, s.records, s.exchanges[i]))
    && OneSpender(s.exchanges)
  }

  /** Creating a record disturbs no exchange. */
  lemma {:induction false} CreateKeeps(h: Hashing, records: seq<Record>, record: Record, e: Exchange)
    requires Get(records, record.id).None? && ExchangeInv(h, records, e)
    ensures ExchangeInv(h, Set(records, record), e)
  {
    hide FindByHash, Set, Get;
    FindAfterCreate(records, record, h.sha256(e.request.code));
  }

  /** Consuming a record leaves every exchange's read sound and every spent record spent. */
  lemma {:induction false} ConsumeKeeps(h: Hashing, records: seq<Record>, id: string, at: int, e: Exchange)
    requires UniqueIds(records) && ExchangeInv(h, records, e)
    ensures ExchangeInv(h, Consumed(records, id, at), e)
  {
    hide FindByHash, Set, Get;
    if Consumable(records, id) {
      var marked := Get(records, id).value.(consumedAt := Some(at));
      FindAfterMark(records, marked, h.sha256(e.request.code));
      FindByHashMember(records, h.sha256(e.request.code));
      if FindByHash(records, h.sha256(e.request.code)).Some? {
        GetUnique(records, FindByHash(records, h.sha256(e.request.code)).value);
      }
    }
  }

  /** The record an exchange found by its code's hash is the one stored under its id. */
  lemma {:induction false} FoundIsStored(h: Hashing, records: seq<Record>, r: Request, read: Read)
    requires UniqueIds(records) && SoundRead(h, records, r, read)
    ensures Get(records, read.record.id) == FindByHash(records, h.sha256(r.code))
  {
    hide FindByHash, Get;
    FindByHashMember(records, h.sha256(r.code));
    GetUnique(records, FindByHash(records, h.sha256(r.code)).value);
  }

  /** An exchange's own step keeps its invariant. */
  lemma {:induction false} AdvanceKeeps(h: Hashing, records: seq<Record>, e: Exchange, step: Step)
    requires UniqueIds(records) && ExchangeInv(h, records, e)
    ensures ExchangeInv(h, StoreAfter(records, e, step), Advance(h, records, e, step))
  {
    hide FindByHash, Get, Set, GrantError, ClientError;
    if e.Found? && step.ConsumeCode? {
      FoundIsStored(h, records, e.request, e.read);
      ConsumeKeeps(h, records, e.read.record.id, step.now, e);
      var id := e.read.record.id;
      if Consumable(records, id) {
        FindAfterMark(records, Get(records, id).value.(consumedAt := Some(step.now)), h.sha256(e.request.code));
      }
    } else if e.ClientChecked? && step.FindCode? {
      FindByHashMember(records, h.sha256(e.request.code));
    }
  }

  /** Whoever spends a record finds it unconsumed; whoever spent it before left it consumed. */
  lemma {:induction false} SpendOnce(h: Hashing, s: State, id: nat, step: Step)
    requires Inv(h, s) && id in s.exchanges
    ensures OneSpender(AdvanceIn(h, s, id, step).exchanges)
  {
    hide FindByHash, Get, Set, GrantError, ClientError, UniqueIds;
    var e := s.exchanges[id];
    var e' := Advance(h, s.records, e, step);
    var after := s.exchanges[id := e'];
    if e.Found? && e'.Redeemed? {
      FoundIsStored(h, s.records, e.request, e.read);
      forall j | j in s.exchanges && j != id && Spent(s.exchanges[j]).Some?
        ensures Spent(s.exchanges[j]).value.record.id != e.read.record.id
      {
        var f := s.exchanges[j];
        FoundIsStored(h, s.records, f.request, Spent(f).value);
      }
    } else {
      assert Spent(e').Some? ==> Spent(e') == Spent(e);
    }
  }

  lemma {:induction false} AdvanceInKeeps(h: Hashing, s: State, id: nat, step: Step)
    requires Inv(h, s)
    ensures Inv(h, AdvanceIn(h, s, id, step))
  {
    hide ExchangeInv, OneSpender, Advance, FindByHash, Get, Set, UniqueIds;
    if id in s.exchanges {
      var e := s.exchanges[id];
      SpendOnce(h, s, id, step);
      AdvanceKeeps(h, s.records, e, step);
      forall j | j in s.exchanges
        ensures ExchangeInv(h, StoreAfter(s.records, e, step), s.exchanges[j])
      {
        if e.Found? && step.ConsumeCode? { ConsumeKeeps(h, s.records, e.read.record.id, step.now, s.exchanges[j]); }
      }
      if e.Found? && step.ConsumeCode? && Consumable(s.records, e.read.record.id) {
        SetUnique(s.records, Get(s.records, e.read.record.id).value.(consumedAt := Some(step.now)));
      }
    }
  }

  lemma {:induction false} StepKeeps(h: Hashing, s: State, step: Step)
    requires Inv(h, s)
    ensures Inv(h, Apply(h, s, step))
  {
    hide ExchangeInv, AdvanceIn, FindByHash, Get, Set, UniqueIds;
    match step
    case IssueCode(record) =>
      if Get(s.records, record.id).None? && record.consumedAt.None? {
        SetUnique(s.records, record);
        forall i | i in s.exchanges
          ensures ExchangeInv(h, Set(s.records, record), s.exchanges[i])
        {
          CreateKeeps(h, s.records, record, s.exchanges[i]);
        }
      }
    case Arrive(id, request) =>
      ArrivedSound(h, s.records, request);
    case CheckClient(id, _) => AdvanceInKeeps(h, s, id, step);
    case FindCode(id, _) => AdvanceInKeeps(h, s, id, step);
    case ConsumeCode(id, _) => AdvanceInKeeps(h, s, id, step);
    case Decide(id) => AdvanceInKeeps(h, s, id, step);
  }

  lemma {:induction false} ArrivedSound(h: Hashing, records: seq<Record>, r: Request)
    ensures ExchangeInv(h, records, Arrived(r))
  {
  }

  /** Every state any interleaving can reach satisfies the invariant. */
  lemma {:induction false} RunKeeps(h: Hashing, steps: seq<Step>)
    ensures Inv(h, Run(h, steps))
  {
    hide Apply, ExchangeInv;
    if steps == [] {
    } else {
      RunKeeps(h, steps[..|steps| - 1]);
      StepKeeps(h, Run(h, steps[..|steps| - 1]), steps[|steps| - 1]);
    }
  }

  // ---------------------------------------------------------------------------
  // What follows
  // ---------------------------------------------------------------------------

  /**
   * Single use, in every interleaving: at most one exchange ever redeems a given code, so tokens are issued at most
   * once per code, however its redemptions overlap and even if two records share the code's hash.
   */
  lemma {:induction false} SingleUse(h: Hashing, steps: seq<Step>, i: nat, j: nat)
    requires
      var e := Run(h, steps).exchanges;
      i in e && j in e && i != j && Spent(e[i]).Some? && Spent(e[j]).Some?
    ensures
      var e := Run(h, steps).exchanges;
      && Spent(e[i]).value.record.id != Spent(e[j]).value.record.id
      && h.sha256(e[i].request.code) != h.sha256(e[j].request.code)
      && e[i].request.code != e[j].request.code
  {
    hide Run, FindByHash;
    RunKeeps(h, steps);
    var e := Run(h, steps).exchanges;
    assert ExchangeInv(h, Run(h, steps).records, e[i]) && ExchangeInv(h, Run(h, steps).records, e[j]);
  }

  /**
   * Whatever is issued was earned: the record was read unexpired and unconsumed, belongs to the presented code, has
   * the presented redirect URI, and any challenge stored with it is met by the presented verifier.
   */
  lemma {:induction false} IssuedIsEarned(h: Hashing, steps: seq<Step>, i: nat)
    requires i in Run(h, steps).exchanges && Run(h, steps).exchanges[i].Issued?
    ensures
      var e := Run(h, steps).exchanges[i];
      var record := e.read.record;
      && e.read.at < record.expiresAt && record.consumedAt.None?
      && record.codeHash == h.sha256(e.request.code)
      && record.redirectUri == e.request.redirectUri
      && (record.codeChallenge.Some? && record.codeChallenge.value != "" ==>
            VerifyPkce(h.s256, if e.request.codeVerifier.Some? then e.request.codeVerifier.value else "",
                       record.codeChallenge, record.codeChallengeMethod))
  {
    hide Run, FindByHash;
    RunKeeps(h, steps);
    assert ExchangeInv(h, Run(h, steps).records, Run(h, steps).exchanges[i]);
  }

  /** The record of a code, once consumed, is consumed for good: no later read finds it usable. */
  lemma {:induction false} BurnedStaysBurned(h: Hashing, steps: seq<Step>, more: seq<Step>, i: nat, now: int)
    requires i in Run(h, steps).exchanges && Spent(Run(h, steps).exchanges[i]).Some?
    ensures
      var later := Run(h, steps + more);
      && i in later.exchanges && later.exchanges[i].request == Run(h, steps).exchanges[i].request
      && Spent(later.exchanges[i]).Some?
      && Readable(later.records, h.sha256(later.exchanges[i].request.code), now).None?
    decreases |more|
  {
    hide Apply, Inv, ExchangeInv, FindByHash;
    if more == [] {
      assert steps + more == steps;
    } else {
      var init := more[..|more| - 1];
      BurnedStaysBurned(h, steps, init, i, now);
      assert (steps + more)[..|steps + more| - 1] == steps + init;
      SpentStays(h, Run(h, steps + init), more[|more| - 1], i);
    }
    RunKeeps(h, steps + more);
    SpentUnreadable(h, Run(h, steps + more), i, now);
  }

  lemma {:induction false} SpentStays(h: Hashing, s: State, step: Step, i: nat)
    requires i in s.exchanges && Spent(s.exchanges[i]).Some?
    ensures
      var s' := Apply(h, s, step);
      i in s'.exchanges && s'.exchanges[i].request == s.exchanges[i].request && Spent(s'.exchanges[i]).Some?
  {
    hide GrantError, ClientError, StoreAfter, Readable, Consumable, Get, Set;
  }

  lemma {:induction false} SpentUnreadable(h: Hashing, s: State, i: nat, now: int)
    requires Inv(h, s) && i in s.exchanges && Spent(s.exchanges[i]).Some?
    ensures Readable(s.records, h.sha256(s.exchanges[i].request.code), now).None?
  {
    hide FindByHash;
    assert ExchangeInv(h, s.records, s.exchanges[i]);
  }

  /** A failed redirect or PKCE check comes after the consumption: the code is burned all the same. */
  lemma {:induction false} FailedCheckBurnsCode(h: Hashing, steps: seq<Step>, more: seq<Step>, i: nat, j: nat)
    requires i in Run(h, steps).exchanges && Run(h, steps).exchanges[i].Redeemed?
    requires GrantError(h, Run(h, steps).exchanges[i].read.record, Run(h, steps).exchanges[i].request).Some?
    requires var later := Run(h, steps + more); j in later.exchanges && j != i
    requires Run(h, steps + more).exchanges[j].request.code == Run(h, steps).exchanges[i].request.code
    ensures !Run(h, steps + more).exchanges[j].Issued?
    ensures Apply(h, Run(h, steps), Decide(i)).exchanges[i].Refused?
  {
    hide Run, Inv, FindByHash, GrantError;
    BurnedStaysBurned(h, steps, more, i, 0);
    if Run(h, steps + more).exchanges[j].Issued? {
      SingleUse(h, steps + more, i, j);
    }
  }

  /** Some exchange consumed this record. */
  ghost predicate HasSpender(exchanges: map<nat, Exchange>, id: string) {
    exists i :: i in exchanges && SpentId(exchanges[i], id)
  }

  predicate SpentId(e: Exchange, id: string) {
    Spent(e).Some? && Spent(e).value.record.id == id
  }

  lemma {:induction false} HasSpenderStays(h: Hashing, s: State, step: Step, id: string)
    requires HasSpender(s.exchanges, id)
    ensures HasSpender(Apply(h, s, step).exchanges, id)
  {
    hide GrantError, ClientError, StoreAfter, Readable, Consumable, Get, Set;
    var i :| i in s.exchanges && SpentId(s.exchanges[i], id);
    assert SpentId(Apply(h, s, step).exchanges[i], id);
  }

  lemma {:induction false} NewlyConsumed(h: Hashing, s: State, step: Step, r: Record)
    requires r in Apply(h, s, step).records && r.consumedAt.Some?
    ensures r in s.records || HasSpender(Apply(h, s, step).exchanges, r.id)
  {
    hide GrantError, ClientError, Readable, Get, Set;
    if step.IssueCode? {
      SetMembers(s.records, step.record);
    } else if step.ConsumeCode? && step.id in s.exchanges {
      var e := s.exchanges[step.id];
      if e.Found? && Consumable(s.records, e.read.record.id) {
        SetMembers(s.records, Get(s.records, e.read.record.id).value.(consumedAt := Some(step.now)));
        assert SpentId(Apply(h, s, step).exchanges[step.id], e.read.record.id);
      }
    }
  }

  /** No code is lost: a consumed record was consumed by some exchange, by SingleUse exactly one. */
  lemma {:induction false} ConsumedHasSpender(h: Hashing, steps: seq<Step>, r: Record)
    requires r in Run(h, steps).records && r.consumedAt.Some?
    ensures HasSpender(Run(h, steps).exchanges, r.id)
    decreases |steps|
  {
    hide Apply, HasSpender;
    if steps == [] {
    } else {
      var init, last := steps[..|steps| - 1], steps[|steps| - 1];
      NewlyConsumed(h, Run(h, init), last, r);
      if r in Run(h, init).records {
        ConsumedHasSpender(h, init, r);
        HasSpenderStays(h, Run(h, init), last, r.id);
      }
    }
  }

  // ---------------------------------------------------------------------------
  // Who passes
  // ---------------------------------------------------------------------------

  /** A confidential client has presented a secret, not empty, whose hash is the one stored. */
  ghost predicate Authentic(h: Hashing, c: Client, r: Request) {
    c.isConfidential ==> exists x :: x != "" && r.clientSecret == Some(x) && c.secretHash == Some(h.sha256(x))
  }

  /** What each client is told: exactly the known, active and authentic ones with a listed redirect URI pass. */
  lemma {:induction false} ClientErrorIff(h: Hashing, client: Option<Client>, r: Request)
    requires forall x :: h.sha256(x) != ""
    ensures
      var error := ClientError(h, client, r);
      && (error == Some(UnknownClient) <==> client.None?)
      && (error == Some(ClientDisabled) <==> client.Some? && !client.value.isActive)
      && (error == Some(ClientAuthFailed) <==>
            client.Some? && client.value.isActive && !Authentic(h, client.value, r))
      && (error == Some(RedirectMismatch) <==>
            && client.Some? && client.value.isActive && Authentic(h, client.value, r)
            && r.redirectUri !in client.value.redirectUris)
      && (error.None? <==>
            && client.Some? && client.value.isActive && Authentic(h, client.value, r)
            && r.redirectUri in client.value.redirectUris)
  {
    if client.Some? && client.value.isConfidential && r.clientSecret.Some? {
      var x := r.clientSecret.value;
      assert x != "" && client.value.secretHash == Some(h.sha256(x)) ==> Authentic(h, client.value, r);
    }
  }

  /** A confidential client whose stored hash is that of a secret passes with that secret and no other. */
  lemma {:induction false} OnlyTheSecretPasses(h: Hashing, c: Client, r: Request, secret: string)
    requires CollisionFree(h.sha256) && c.isConfidential && secret != "" && c.secretHash == Some(h.sha256(secret))
    ensures ClientError(h, Some(c), r).None? <==>
            c.isActive && r.clientSecret == Some(secret) && r.redirectUri in c.redirectUris
  {
    ClientErrorIff(h, Some(c), r);
    if r.clientSecret == Some(secret) { assert Authentic(h, c, r); }
  }

  /** A challenge stored with the code is met by the presented verifier; a missing one counts as empty. */
  predicate ChallengeMet(h: Hashing, record: Record, r: Request) {
    var verifier := if r.codeVerifier.Some? then r.codeVerifier.value else "";
    || record.codeChallenge.None? || record.codeChallenge.value == ""
    || (record.codeChallengeMethod == Some(S256) && h.s256(verifier) == record.codeChallenge.value)
    || (record.codeChallengeMethod == Some(Plain) && verifier == record.codeChallenge.value)
  }

  lemma {:induction false} GrantErrorIff(h: Hashing, record: Record, r: Request)
    ensures GrantError(h, record, r) ==
            if record.redirectUri != r.redirectUri then Some(RedirectMismatch)
            else if !ChallengeMet(h, record, r) then Some(PkceFailed)
            else None
  {
    var verifier := if r.codeVerifier.Some? then r.codeVerifier.value else "";
    PkceMetIff(h.s256, verifier, record.codeChallenge, record.codeChallengeMethod);
  }

  /** One exchange from its arrival to its decision, with nothing in between. */
  function Alone(id: nat, r: Request, client: Option<Client>, readAt: int, consumeAt: int): seq<Step> {
    [Arrive(id, r), CheckClient(id, client), FindCode(id, readAt), ConsumeCode(id, consumeAt), Decide(id)]
  }

  lemma {:induction false} RunMore(h: Hashing, steps: seq<Step>, more: seq<Step>, n: nat)
    requires n < |more|
    ensures Run(h, steps + more[..n + 1]) == Apply(h, Run(h, steps + more[..n]), more[n])
  {
    var longer := steps + more[..n + 1];
    assert longer[..|longer| - 1] == steps + more[..n] && longer[|longer| - 1] == more[n];
  }

  /** What an exchange should end as, from the code's record at the start. */
  ghost predicate RightOutcome(h: Hashing, client: Option<Client>, found: Option<Record>, r: Request, readAt: int,
                               e: Exchange)
  {
    if ClientError(h, client, r).Some? then e == Refused(r, ClientError(h, client, r).value, None)
    else if found.None? || found.value.consumedAt.Some? || found.value.expiresAt <= readAt then
      e == Refused(r, InvalidCode, None)
    else if found.value.redirectUri != r.redirectUri then
      e == Refused(r, RedirectMismatch, Some(Read(found.value, readAt)))
    else if !ChallengeMet(h, found.value, r) then e == Refused(r, PkceFailed, Some(Read(found.value, readAt)))
    else e == Issued(r, Read(found.value, readAt))
  }

  /**
   * Whoever deserves tokens gets them: after any run, an exchange that is not interrupted is issued exactly when its
   * client passes and its code is known, unconsumed and unexpired, comes with its own redirect URI and meets the stored
   * challenge. Otherwise it is told the first of these that fails.
   */
  lemma {:induction false} AloneIsDecided(h: Hashing, steps: seq<Step>, id: nat, r: Request, client: Option<Client>,
                                          readAt: int, consumeAt: int)
    requires id !in Run(h, steps).exchanges
    ensures
      var s := Run(h, steps);
      var s' := Run(h, steps + Alone(id, r, client, readAt, consumeAt));
      && id in s'.exchanges
      && RightOutcome(h, client, FindByHash(s.records, h.sha256(r.code)), r, readAt, s'.exchanges[id])
  {
    hide Run, ClientError, GrantError, ChallengeMet, Readable, Get, FindByHash, Consumed, Inv;
    var more, s := Alone(id, r, client, readAt, consumeAt), Run(h, steps);
    assert steps + more[..5] == steps + more;
    RunKeeps(h, steps);
    AloneReads(h, steps, id, r, client, readAt, consumeAt);
    RunMore(h, steps, more, 3);
    RunMore(h, steps, more, 4);
    ReadableConsumable(h, s, r.code, readAt);
    var found := Readable(s.records, h.sha256(r.code), readAt);
    if found.Some? { GrantErrorIff(h, found.value, r); }
  }

  /** As far as the read of the code: the store is as before. */
  lemma {:induction false} AloneReads(h: Hashing, steps: seq<Step>, id: nat, r: Request, client: Option<Client>,
                                      readAt: int, consumeAt: int)
    requires id !in Run(h, steps).exchanges
    ensures
      var s := Run(h, steps);
      var s' := Run(h, steps + Alone(id, r, client, readAt, consumeAt)[..3]);
      var error, found := ClientError(h, client, r), Readable(s.records, h.sha256(r.code), readAt);
      && id in s'.exchanges && s'.records == s.records
      && s'.exchanges[id] == if error.Some? then Refused(r, error.value, None)
                             else if found.None? then Refused(r, InvalidCode, None)
                             else Found(r, Read(found.value, readAt))
  {
    hide Run, ClientError, Readable, Get, Set, Consumed;
    var more := Alone(id, r, client, readAt, consumeAt);
    assert steps + more[..0] == steps;
    RunMore(h, steps, more, 0);
    RunMore(h, steps, more, 1);
    RunMore(h, steps, more, 2);
  }

  /** What a state's read step yields, and that it can be consumed next. */
  lemma {:induction false} ReadableConsumable(h: Hashing, s: State, code: string, now: int)
    requires Inv(h, s)
    ensures
      var found, readable := FindByHash(s.records, h.sha256(code)), Readable(s.records, h.sha256(code), now);
      && readable ==
         (if found.None? || found.value.consumedAt.Some? || found.value.expiresAt <= now then None else found)
      && (readable.Some? ==> Consumable(s.records, readable.value.id))
  {
    hide FindByHash, Get;
    FindByHashMember(s.records, h.sha256(code));
    if FindByHash(s.records, h.sha256(code)).Some? {
      GetUnique(s.records, FindByHash(s.records, h.sha256(code)).value);
    }
  }
}
