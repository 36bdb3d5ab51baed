/**
 * One-time authorization codes and their store (packages/oauth/src/authorization-code.ts), with PKCE
 * (packages/oauth/src/pkce.ts). SHA-256 is a parameter; random ids, codes and the clock are arguments.
 */
module AuthorizationCode {
  import opened Wrappers

  datatype PkceMethod = S256 | Plain | NoPkce

  /** What the tokens are issued for. */
  datatype Grant = Grant(tenantId: string, applicationId: string, clientId: string, userId: string, sessionId: string,
                         scope: seq<string>)

  datatype Record = Record(
    id: string,
    codeHash: string,
    grant: Grant,
    redirectUri: string,
    codeChallenge: Option<string>,
    codeChallengeMethod: Option<PkceMethod>,
    expiresAt: int,
    consumedAt: Option<int>)

  const DEFAULT_CODE_TTL_MS := 5 * 60 * 1000

  // ---------------------------------------------------------------------------
  // The store
  // ---------------------------------------------------------------------------

  ghost predicate UniqueIds(records: seq<Record>) {
    forall i, j :: 0 <= i < j < |records| ==> records[i].id != records[j].id
  }

  function Get(records: seq<Record>, id: string): (r: Option<Record>)
    ensures r.Some? ==> r.value in records && r.value.id == id
    ensures r.None? ==> forall k :: k in records ==> k.id != id
  {
    if records == [] then None
    else if records[0].id == id then Some(records[0])
    else Get(records[1..], id)
  }

  /** `Map.set`: an existing id keeps its place. */
  function Set(records: seq<Record>, r: Record): seq<Record> {
    if records == [] then [r]
    else if records[0].id == r.id then [r] + records[1..]
    else [records[0]] + Set(records[1..], r)
  }

  /** The first record, in insertion order, with the hash. */
  function FindByHash(records: seq<Record>, hash: string): Option<Record> {
    if records == [] then None
    else if records[0].codeHash == hash then Some(records[0])
    else FindByHash(records[1..], hash)
  }

  /** Compare-and-set: only an unconsumed record is marked. */
  function Consumable(records: seq<Record>, id: string): bool {
    Get(records, id).Some? && Get(records, id).value.consumedAt.None?
  }

  function Consumed(records: seq<Record>, id: string, at: int): seq<Record> {
    if Consumable(records, id) then Set(records, Get(records, id).value.(consumedAt := Some(at))) else records
  }

  /** What the read step of a redemption yields: an unconsumed record that has not expired yet. */
  function Readable(records: seq<Record>, hash: string, now: int): Option<Record> {
    match FindByHash(records, hash)
    case None => None
    case Some(r) => if r.consumedAt.Some? || r.expiresAt <= now then None else Some(r)
  }

  class MemoryStore {
    var records: seq<Record>

    constructor ()
      ensures records == []
    {
      records := [];
    }

    /** The record is stored under its id, every other id is as before, and ids stay unique. */
    method Create(record: Record)
      modifies this
      ensures Get(records, record.id) == Some(record)
      ensures forall id :: id != record.id ==> Get(records, id) == Get(old(records), id)
      ensures UniqueIds(old(records)) ==> UniqueIds(records)
      ensures records == Set(old(records), record)
    {
      forall id
        ensures Get(Set(records, record), id) == if id == record.id then Some(record) else Get(records, id)
      {
        GetAfterSet(records, record, id);
      }
      if UniqueIds(records) { SetUnique(records, record); }
      records := Set(records, record);
    }

    method FindRecord(hash: string) returns (r: Option<Record>)
      ensures r == FindByHash(records, hash)
    {
      for i := 0 to |records|
        invariant FindByHash(records, hash) == FindByHash(records[i..], hash)
      {
        if records[i].codeHash == hash { return Some(records[i]); }
        assert records[i..][1..] == records[i + 1..];
      }
      r := None;
    }

    method Consume(id: string, at: int) returns (ok: bool)
      modifies this
      ensures ok == old(Consumable(records, id))
      ensures records == Consumed(old(records), id, at)
    {
      var record := Get(records, id);
      if record.None? || record.value.consumedAt.Some? { return false; }
      records := Set(records, record.value.(consumedAt := Some(at)));
      ok := true;
    }
  }

  class CodeManager {
    const store: MemoryStore
    const sha256: string -> string

    constructor (store: MemoryStore, sha256: string -> string)
      ensures this.store == store && this.sha256 == sha256
    {
      this.store, this.sha256 := store, sha256;
    }

    method Issue(code: string, id: string, grant: Grant, redirectUri: string, challenge: Option<string>,
                 challengeMethod: Option<PkceMethod>, ttlMs: Option<int>, now: int) returns (record: Record)
      modifies store
      ensures record == Record(id, sha256(code), grant, redirectUri, challenge, challengeMethod,
                               now + (if ttlMs.Some? then ttlMs.value else 300_000), None)
      ensures store.records == Set(old(store.records), record)
    {
      var ttl := if ttlMs.Some? then ttlMs.value else DEFAULT_CODE_TTL_MS;
      record := Record(id, sha256(code), grant, redirectUri, challenge, challengeMethod, now + ttl, None);
      store.Create(record);
    }

    /** Redemption without anything in between the read and the compare-and-set. */
    method Redeem(code: string, readAt: int, consumeAt: int) returns (r: Option<Record>)
      modifies store
      ensures r == Redeemable(old(store.records), sha256(code), readAt)
      ensures store.records ==
        if r.Some? then Consumed(old(store.records), r.value.id, consumeAt) else old(store.records)
    {
      hide Readable;
      var record := store.FindRecord(sha256(code));
      if record.None? || record.value.consumedAt.Some? || record.value.expiresAt <= readAt {
        ReadableNone(store.records, sha256(code), readAt);
        return None;
      }
      ReadableSome(store.records, sha256(code), readAt);
      var consumed := store.Consume(record.value.id, consumeAt);
      r := if consumed then record else None;
    }
  }

  function Redeemable(records: seq<Record>, hash: string, now: int): Option<Record> {
    match Readable(records, hash, now)
    case None => None
    case Some(r) => if Consumable(records, r.id) then Some(r) else None
  }

  lemma {:induction false} ReadableNone(records: seq<Record>, hash: string, now: int)
    requires var r := FindByHash(records, hash); r.None? || r.value.consumedAt.Some? || r.value.expiresAt <= now
    ensures Readable(records, hash, now) == None
  {
  }

  lemma {:induction false} ReadableSome(records: seq<Record>, hash: string, now: int)
    requires var r := FindByHash(records, hash); r.Some? && r.value.consumedAt.None? && r.value.expiresAt > now
    ensures Readable(records, hash, now) == FindByHash(records, hash)
  {
  }

  // ---------------------------------------------------------------------------
  // Facts about the store
  // ---------------------------------------------------------------------------

  lemma {:induction false} GetUnique(records: seq<Record>, r: Record)
    requires UniqueIds(records) && r in records
    ensures Get(records, r.id) == Some(r)
  {
    if records[0] != r { GetUnique(records[1..], r); }
  }

  lemma {:induction false} FindByHashMember(records: seq<Record>, hash: string)
    ensures var r := FindByHash(records, hash); r.Some? ==> r.value in records && r.value.codeHash == hash
    ensures FindByHash(records, hash).None? ==> forall r :: r in records ==> r.codeHash != hash
  {
    if records == [] {
    } else {
      FindByHashMember(records[1..], hash);
    }
  }

  lemma {:induction false} GetAfterSet(records: seq<Record>, r: Record, id: string)
    ensures Get(Set(records, r), id) == if id == r.id then Some(r) else Get(records, id)
  {
    if records != [] && records[0].id != r.id {
      GetAfterSet(records[1..], r, id);
      assert Set(records, r)[1..] == Set(records[1..], r);
    } else if records != [] {
      assert Set(records, r)[1..] == records[1..];
    } else {
      assert Set(records, r)[1..] == [];
    }
  }

  lemma {:induction false} SetMembers(records: seq<Record>, r: Record)
    ensures forall k :: k in Set(records, r) ==> k == r || k in records
  {
    if records != [] && records[0].id != r.id { SetMembers(records[1..], r); }
  }

  lemma {:induction false} SetUnique(records: seq<Record>, r: Record)
    requires UniqueIds(records)
    ensures UniqueIds(Set(records, r))
  {
    if records == [] {
    } else {
      if records[0].id == r.id {
        assert forall j :: 0 < j < |records| ==> records[j].id != r.id;
      } else {
        SetUnique(records[1..], r);
        SetMembers(records[1..], r);
        var s := Set(records, r);
        forall j | 0 < j < |s|
          ensures s[j].id != s[0].id
        {
          assert s[j] in Set(records[1..], r);
        }
      }
    }
  }

  /** Marking a record changes no lookup by hash but for the mark itself. */
  lemma {:induction false} FindAfterMark(records: seq<Record>, r: Record, hash: string)
    requires Get(records, r.id).Some? && r.codeHash == Get(records, r.id).value.codeHash
    requires UniqueIds(records)
    ensures
      var before, after := FindByHash(records, hash), FindByHash(Set(records, r), hash);
      && (before.None? <==> after.None?)
      && (before.Some? ==> after.value == if before.value.id == r.id then r else before.value)
  {
    if records[0].id == r.id {
      assert Set(records, r)[1..] == records[1..];
      FindByHashMember(records[1..], hash);
      if FindByHash(records[1..], hash).Some? {
        var k := FindByHash(records[1..], hash).value;
        var j :| 0 <= j < |records[1..]| && records[1..][j] == k;
        assert records[j + 1] == k;
      }
    } else {
      FindAfterMark(records[1..], r, hash);
      assert Set(records, r)[1..] == Set(records[1..], r);
    }
  }

  /** A new record is found by a hash only where nothing was found before. */
  lemma {:induction false} FindAfterCreate(records: seq<Record>, r: Record, hash: string)
    requires Get(records, r.id).None?
    ensures FindByHash(records, hash).Some? ==> FindByHash(Set(records, r), hash) == FindByHash(records, hash)
  {
    if records == [] {
    } else {
      FindAfterCreate(records[1..], r, hash);
      assert Set(records, r)[1..] == Set(records[1..], r);
    }
  }

  /** A new code under a new id and a new hash redeems to its own record, exactly until it expires. */
  lemma {:induction false} IssuedIsRedeemable(records: seq<Record>, r: Record, readAt: int)
    requires UniqueIds(records) && Get(records, r.id).None? && FindByHash(records, r.codeHash).None?
    requires r.consumedAt.None?
    ensures Redeemable(Set(records, r), r.codeHash, readAt) == if readAt < r.expiresAt then Some(r) else None
  {
    hide FindByHash, Get, Set, UniqueIds;
    GetAfterSet(records, r, r.id);
    FindCreated(records, r);
  }

  lemma {:induction false} FindCreated(records: seq<Record>, r: Record)
    requires Get(records, r.id).None? && FindByHash(records, r.codeHash).None?
    ensures FindByHash(Set(records, r), r.codeHash) == Some(r)
  {
    if records == [] {
    } else {
      FindCreated(records[1..], r);
      assert Set(records, r)[1..] == Set(records[1..], r);
    }
  }

  /** One after the other: an unexpired code redeems once, and not a second time at any later moment. */
  lemma {:induction false} RedeemsExactlyOnce(records: seq<Record>, hash: string, readAt: int, consumeAt: int,
                                              again: int)
    requires UniqueIds(records)
    ensures
      var first := Redeemable(records, hash, readAt);
      && (first.Some? <==> FindByHash(records, hash).Some? && FindByHash(records, hash).value.consumedAt.None?
                           && FindByHash(records, hash).value.expiresAt > readAt)
      && (first.Some? ==>
            var after := Consumed(records, first.value.id, consumeAt);
            && Redeemable(after, hash, again).None?
            && FindByHash(after, hash) == Some(first.value.(consumedAt := Some(consumeAt))))
  {
    hide FindByHash, Get, Set, UniqueIds;
    FindByHashMember(records, hash);
    if FindByHash(records, hash).Some? {
      var r := FindByHash(records, hash).value;
      GetUnique(records, r);
      FindAfterMark(records, r.(consumedAt := Some(consumeAt)), hash);
    }
  }

  // ---------------------------------------------------------------------------
  // PKCE
  // ---------------------------------------------------------------------------

  function CodeChallenge(s256: string -> string, verifier: string, m: PkceMethod): string {
    if m == Plain then verifier else s256(verifier)
  }

  /** A missing or empty challenge, a missing method and 'none' all fail. */
  function VerifyPkce(s256: string -> string, verifier: string, challenge: Option<string>, m: Option<PkceMethod>)
    : bool
  {
    if challenge.None? || challenge.value == "" || m.None? || m.value == NoPkce then false
    else CodeChallenge(s256, verifier, m.value) == challenge.value
  }

  /** No two verifiers share an S256 challenge, and none has an empty one. */
  ghost predicate CollisionFree(s256: string -> string) {
    && (forall v, w :: s256(v) == s256(w) ==> v == w)
    && (forall v :: s256(v) != "")
  }

  /** A challenge derived from a verifier is met by that verifier alone; an empty plain verifier never passes. */
  lemma {:induction false} PkceAcceptsOnlyTheVerifier(s256: string -> string, v: string, w: string, m: PkceMethod)
    requires CollisionFree(s256) && m != NoPkce
    ensures VerifyPkce(s256, w, Some(CodeChallenge(s256, v, m)), Some(m)) <==> (v == w && !(m == Plain && v == ""))
  {
  }

  /** A challenge is met by a verifier that is hashed to it, once, or for the plain method by itself. */
  lemma {:induction false} PkceMetIff(s256: string -> string, verifier: string, challenge: Option<string>,
                                      m: Option<PkceMethod>)
    ensures VerifyPkce(s256, verifier, challenge, m) <==>
            && challenge.Some? && challenge.value != ""
            && (|| (m == Some(S256) && challenge.value == s256(verifier))
                || (m == Some(Plain) && challenge.value == verifier))
  {
  }
}
