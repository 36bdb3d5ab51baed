/**
 * The signing-key store (packages/crypto/src/jwt.ts): lifecycle, expiry, pruning, publication and lookup.
 *
 * The store's Map is a sequence in insertion order with one entry per kid. Key material and random kids are
 * arguments.
 */
module KeyStore {
  import opened Wrappers

  datatype Algorithm = RS256 | ES256 | EdDSA | MlDsa65 | MlDsa87 | HybridRS256 | HybridES256

  datatype KeyStatus = Generated | Staged | Active | VerifyOnly | Retired | Revoked

  datatype Material = Material(publicKey: string, privateKey: string, pqPublicKey: string, pqPrivateKey: string)

  datatype SigningKey = SigningKey(
    kid: string,
    algorithm: Algorithm,
    material: Material,
    createdAt: int,
    status: KeyStatus,
    activatedAt: Option<int>,
    retiredAt: Option<int>,
    revokedAt: Option<int>,
    expiresAt: int)

  datatype Jwk =
    | ClassicalJwk(kid: string, alg: Algorithm, publicKey: string)
    | PqJwk(kid: string, alg: Algorithm, pqPublicKey: string)

  datatype KeyError = IncompleteKey | UnknownOrRevokedKey | UnknownKey

  const DEFAULT_TTL_MS := 30 * 24 * 60 * 60 * 1000

  // ---------------------------------------------------------------------------
  // The map of keys
  // ---------------------------------------------------------------------------

  ghost predicate UniqueKids(keys: seq<SigningKey>) {
    forall i, j :: 0 <= i < j < |keys| ==> keys[i].kid != keys[j].kid
  }

  function Find(keys: seq<SigningKey>, kid: string): (r: Option<SigningKey>)
    ensures r.Some? ==> r.value in keys && r.value.kid == kid
    ensures r.None? ==> forall k :: k in keys ==> k.kid != kid
  {
    if keys == [] then None
    else if keys[0].kid == kid then Some(keys[0])
    else Find(keys[1..], kid)
  }

  /** `Map.set`: an existing kid keeps its place, a new one goes to the end. */
  function Put(keys: seq<SigningKey>, key: SigningKey): seq<SigningKey> {
    if keys == [] then [key]
    else if keys[0].kid == key.kid then [key] + keys[1..]
    else [keys[0]] + Put(keys[1..], key)
  }

  /** The entries that expire after `now`. */
  function Live(keys: seq<SigningKey>, now: int): seq<SigningKey> {
    if keys == [] then []
    else (if keys[0].expiresAt > now then [keys[0]] else []) + Live(keys[1..], now)
  }

  /** What pruning leaves: a key expiring at this very instant stays. */
  function Pruned(keys: seq<SigningKey>, now: int): seq<SigningKey> {
    if keys == [] then []
    else (if keys[0].expiresAt < now then [] else [keys[0]]) + Pruned(keys[1..], now)
  }

  // ---------------------------------------------------------------------------
  // Answers
  // ---------------------------------------------------------------------------

  function ByKid(keys: seq<SigningKey>, kid: string, now: int): Option<SigningKey> {
    match Find(keys, kid)
    case None => None
    case Some(k) => if k.status != Revoked && k.expiresAt > now then Some(k) else None
  }

  predicate Usable(k: SigningKey, now: int) {
    k.status == Active && k.expiresAt > now
  }

  /** Stable insertion into a list sorted by descending creation time. */
  function Insert(k: SigningKey, sorted: seq<SigningKey>): seq<SigningKey> {
    if sorted == [] || k.createdAt >= sorted[0].createdAt then [k] + sorted
    else [sorted[0]] + Insert(k, sorted[1..])
  }

  function SortedDesc(keys: seq<SigningKey>): seq<SigningKey> {
    if keys == [] then [] else Insert(keys[0], SortedDesc(keys[1..]))
  }

  function FirstUsable(keys: seq<SigningKey>, now: int): Option<SigningKey> {
    if keys == [] then None
    else if Usable(keys[0], now) then Some(keys[0])
    else FirstUsable(keys[1..], now)
  }

  /** The key for new tokens, if there is one. */
  function CurrentKey(keys: seq<SigningKey>, now: int): Option<SigningKey> {
    FirstUsable(SortedDesc(keys), now)
  }

  predicate Published(k: SigningKey, now: int) {
    k.expiresAt > now && (k.status == Active || k.status == VerifyOnly)
  }

  function ClassicalOf(a: Algorithm): Algorithm {
    if a == HybridES256 then ES256 else RS256
  }

  /** One entry, or two for a hybrid key: the classical one under its kid, the post-quantum one under kid + "-pqc". */
  function Entries(k: SigningKey): seq<Jwk> {
    match k.algorithm
    case MlDsa65 => [PqJwk(k.kid, k.algorithm, k.material.pqPublicKey)]
    case MlDsa87 => [PqJwk(k.kid, k.algorithm, k.material.pqPublicKey)]
    case HybridRS256 => HybridEntries(k)
    case HybridES256 => HybridEntries(k)
    case _ => [ClassicalJwk(k.kid, k.algorithm, k.material.publicKey)]
  }

  function HybridEntries(k: SigningKey): seq<Jwk> {
    [ClassicalJwk(k.kid, ClassicalOf(k.algorithm), k.material.publicKey),
     PqJwk(k.kid + "-pqc", MlDsa65, k.material.pqPublicKey)]
  }

  function Jwks(keys: seq<SigningKey>, now: int): seq<Jwk> {
    if keys == [] then []
    else (if Published(keys[0], now) then Entries(keys[0]) else []) + Jwks(keys[1..], now)
  }

  // ---------------------------------------------------------------------------
  // Operations
  // ---------------------------------------------------------------------------

  function NewKey(algorithm: Algorithm, kid: string, ttlMs: int, material: Material, now: int): SigningKey {
    SigningKey(kid, algorithm, material, now, Active, Some(now), None, None, now + ttlMs)
  }

  datatype Op =
    | Add(kid: string, ttlMs: int, material: Material)
    | Restore(key: SigningKey, materialOk: bool)
    | Retire(kid: string)
    | Revoke(kid: string)
    | Clear
    | UseCurrent(freshKid: string, material: Material)

  function Adopt(prunes: bool, keys: seq<SigningKey>, key: SigningKey, now: int): seq<SigningKey> {
    var added := Put(keys, key);
    if prunes then Pruned(added, now) else added
  }

  function Restored(key: SigningKey): SigningKey {
    key.(activatedAt := if key.activatedAt.Some? then key.activatedAt else Some(key.createdAt))
  }

  /**
   * The keys after one operation; with `prunes` false, of a store that never prunes. A refused operation changes
   * nothing.
   */
  function Apply(prunes: bool, algorithm: Algorithm, keys: seq<SigningKey>, op: Op, now: int): seq<SigningKey> {
    match op
    case Add(kid, ttlMs, material) => Adopt(prunes, keys, NewKey(algorithm, kid, ttlMs, material, now), now)
    case Restore(key, materialOk) =>
      if key.kid == "" || !materialOk then keys else Adopt(prunes, keys, Restored(key), now)
    case Retire(kid) =>
      (match Find(keys, kid)
       case None => keys
       case Some(k) =>
         if k.status == Revoked then keys else Put(keys, k.(status := VerifyOnly, retiredAt := Some(now))))
    case Revoke(kid) =>
      (match Find(keys, kid)
       case None => keys
       case Some(k) => Put(keys, k.(status := Revoked, revokedAt := Some(now))))
    case Clear => []
    case UseCurrent(freshKid, material) =>
      if CurrentKey(keys, now).Some? then keys
      else Adopt(prunes, keys, NewKey(algorithm, freshKid, DEFAULT_TTL_MS, material, now), now)
  }

  /** The store. Operations that throw in the source return an error and leave the keys alone. */
  class Store {
    const algorithm: Algorithm
    var keys: seq<SigningKey>

    ghost predicate Valid()
      reads this
    {
      UniqueKids(keys)
    }

    constructor (algorithm: Algorithm)
      ensures Valid() && this.algorithm == algorithm && keys == []
    {
      this.algorithm := algorithm;
      keys := [];
    }

    method AddKey(kid: string, ttlMs: int, material: Material, now: int) returns (key: SigningKey)
      requires Valid()
      modifies this
      ensures Valid()
      ensures keys == Apply(true, algorithm, old(keys), Add(kid, ttlMs, material), now)
      ensures key == NewKey(algorithm, kid, ttlMs, material, now)
    {
      key := NewKey(algorithm, kid, ttlMs, material, now);
      PutUnique(keys, key);
      keys := Put(keys, key);
      Prune(now);
    }

    method AddKeyWithMaterial(key: SigningKey, materialOk: bool, now: int) returns (r: Result<(), KeyError>)
      requires Valid()
      modifies this
      ensures Valid()
      ensures keys == Apply(true, algorithm, old(keys), Restore(key, materialOk), now)
      ensures r.Err? <==> key.kid == "" || !materialOk
    {
      if key.kid == "" || !materialOk { return Err(IncompleteKey); }
      PutUnique(keys, Restored(key));
      keys := Put(keys, Restored(key));
      Prune(now);
      r := Ok(());
    }

    method Prune(now: int)
      requires Valid()
      modifies this
      ensures Valid()
      ensures keys == Pruned(old(keys), now)
    {
      var all := keys;
      var kept: seq<SigningKey> := [];
      for i := 0 to |all|
        invariant kept + Pruned(all[i..], now) == Pruned(all, now)
      {
        assert all[i..][1..] == all[i + 1..];
        if !(all[i].expiresAt < now) { kept := kept + [all[i]]; }
      }
      assert kept + [] == kept;
      PrunedUnique(all, now);
      keys := kept;
    }

    method Retire(kid: string, now: int) returns (r: Result<(), KeyError>)
      requires Valid()
      modifies this
      ensures Valid()
      ensures keys == Apply(true, algorithm, old(keys), Op.Retire(kid), now)
      ensures r.Err? <==> old(Find(keys, kid).None? || Find(keys, kid).value.status == Revoked)
    {
      var key := Find(keys, kid);
      if key.None? || key.value.status == Revoked { return Err(UnknownOrRevokedKey); }
      var retired := key.value.(status := VerifyOnly, retiredAt := Some(now));
      PutUnique(keys, retired);
      keys := Put(keys, retired);
      r := Ok(());
    }

    method Revoke(kid: string, now: int) returns (r: Result<(), KeyError>)
      requires Valid()
      modifies this
      ensures Valid()
      ensures keys == Apply(true, algorithm, old(keys), Op.Revoke(kid), now)
      ensures r.Err? <==> old(Find(keys, kid)).None?
    {
      var key := Find(keys, kid);
      if key.None? { return Err(UnknownKey); }
      var revoked := key.value.(status := Revoked, revokedAt := Some(now));
      PutUnique(keys, revoked);
      keys := Put(keys, revoked);
      r := Ok(());
    }

    method Clear()
      requires Valid()
      modifies this
      ensures Valid()
      ensures keys == [] == Apply(true, algorithm, old(keys), Op.Clear, 0)
    {
      keys := [];
    }

    /** The key for new tokens; without a usable one, a key is generated. */
    method Current(freshKid: string, material: Material, now: int) returns (key: SigningKey)
      requires Valid()
      modifies this
      ensures Valid()
      ensures keys == Apply(true, algorithm, old(keys), UseCurrent(freshKid, material), now)
      ensures Usable(key, now) && Find(keys, key.kid) == Some(key)
      ensures old(CurrentKey(keys, now)).Some? ==> Some(key) == old(CurrentKey(keys, now))
    {
      hide CurrentKey, Put, Pruned, Find, UniqueKids, Adopt;
      var found := CurrentKey(keys, now);
      if found.Some? {
        key := found.value;
        CurrentIsNewest(keys, now);
        FindUnique(keys, key);
        return;
      }
      ghost var before := keys;
      key := AddKey(freshKid, DEFAULT_TTL_MS, material, now);
      AdoptFinds(before, key, now);
    }

    method PublishedKeys(now: int) returns (entries: seq<Jwk>)
      ensures entries == Jwks(keys, now)
    {
      hide Entries;
      entries := [];
      for i := 0 to |keys|
        invariant entries + Jwks(keys[i..], now) == Jwks(keys, now)
      {
        assert keys[i..][1..] == keys[i + 1..];
        if keys[i].expiresAt <= now { continue; }
        if keys[i].status != Active && keys[i].status != VerifyOnly { continue; }
        entries := entries + Entries(keys[i]);
      }
      assert entries + [] == entries;
    }
  }

  // ---------------------------------------------------------------------------
  // Facts about the map
  // ---------------------------------------------------------------------------

  lemma {:induction false} FindUnique(keys: seq<SigningKey>, key: SigningKey)
    requires UniqueKids(keys) && key in keys
    ensures Find(keys, key.kid) == Some(key)
  {
    if keys[0] != key { FindUnique(keys[1..], key); }
  }

  lemma {:induction false} PutFind(keys: seq<SigningKey>, key: SigningKey, kid: string)
    ensures Find(Put(keys, key), kid) == if kid == key.kid then Some(key) else Find(keys, kid)
    ensures key in Put(keys, key)
  {
    if keys != [] && keys[0].kid != key.kid {
      PutFind(keys[1..], key, kid);
      assert Put(keys, key)[1..] == Put(keys[1..], key);
    } else if keys != [] {
      assert Put(keys, key)[1..] == keys[1..];
    } else {
      assert Put(keys, key)[1..] == [];
    }
  }

  /** The kids of an updated map: the old ones and the key's own. */
  lemma {:induction false} PutKids(keys: seq<SigningKey>, key: SigningKey)
    ensures forall k :: k in Put(keys, key) ==> k == key || k in keys
  {
    if keys != [] && keys[0].kid != key.kid { PutKids(keys[1..], key); }
  }

  lemma {:induction false} PutUnique(keys: seq<SigningKey>, key: SigningKey)
    requires UniqueKids(keys)
    ensures UniqueKids(Put(keys, key))
  {
    if keys == [] {
    } else {
      if keys[0].kid == key.kid {
        assert forall j :: 0 < j < |keys| ==> keys[j].kid != key.kid;
      } else {
        PutUnique(keys[1..], key);
        PutKids(keys[1..], key);
        var put := Put(keys, key);
        forall j | 0 < j < |put|
          ensures put[j].kid != put[0].kid
        {
          assert put[j] in Put(keys[1..], key);
        }
      }
    }
  }

  lemma {:induction false} PrunedMembers(keys: seq<SigningKey>, now: int)
    ensures forall k :: k in Pruned(keys, now) <==> k in keys && k.expiresAt >= now
  {
    if keys == [] {
    } else {
      PrunedMembers(keys[1..], now);
    }
  }

  lemma {:induction false} PrunedUnique(keys: seq<SigningKey>, now: int)
    requires UniqueKids(keys)
    ensures UniqueKids(Pruned(keys, now))
  {
    if keys == [] {
    } else {
      PrunedUnique(keys[1..], now);
      PrunedMembers(keys[1..], now);
      var rest := Pruned(keys[1..], now);
      forall j | 0 <= j < |rest|
        ensures rest[j].kid != keys[0].kid
      {
        assert rest[j] in keys[1..];
      }
    }
  }

  lemma {:induction false} PrunedKeeps(keys: seq<SigningKey>, key: SigningKey, now: int)
    requires UniqueKids(keys) && key in keys && key.expiresAt >= now
    ensures Find(Pruned(keys, now), key.kid) == Some(key)
  {
    PrunedMembers(keys, now);
    PrunedUnique(keys, now);
    FindUnique(Pruned(keys, now), key);
  }

  lemma {:induction false} AdoptFinds(keys: seq<SigningKey>, key: SigningKey, now: int)
    requires UniqueKids(keys) && key.expiresAt >= now
    ensures Find(Adopt(true, keys, key, now), key.kid) == Some(key)
  {
    PutFind(keys, key, key.kid);
    PutUnique(keys, key);
    PrunedKeeps(Put(keys, key), key, now);
  }

  // ---------------------------------------------------------------------------
  // The current key
  // ---------------------------------------------------------------------------

  ghost predicate Descending(s: seq<SigningKey>) {
    forall i, j :: 0 <= i < j < |s| ==> s[i].createdAt >= s[j].createdAt
  }

  lemma {:induction false} InsertDescending(k: SigningKey, s: seq<SigningKey>)
    requires Descending(s)
    ensures Descending(Insert(k, s))
    ensures forall x :: x in Insert(k, s) <==> x == k || x in s
  {
    if s != [] && k.createdAt < s[0].createdAt {
      InsertDescending(k, s[1..]);
      var t := Insert(k, s[1..]);
      forall j | 0 <= j < |t|
        ensures t[j].createdAt <= s[0].createdAt
      {
        assert t[j] in t;
      }
    }
  }

  lemma {:induction false} SortIsDescending(keys: seq<SigningKey>)
    ensures Descending(SortedDesc(keys))
    ensures forall x :: x in SortedDesc(keys) <==> x in keys
  {
    if keys == [] {
    } else {
      SortIsDescending(keys[1..]);
      InsertDescending(keys[0], SortedDesc(keys[1..]));
    }
  }

  lemma {:induction false} FirstUsableMember(keys: seq<SigningKey>, now: int)
    ensures var r := FirstUsable(keys, now);
      if r.Some? then
        && r.value in keys && Usable(r.value, now)
        && (Descending(keys) ==> forall k :: k in keys && Usable(k, now) ==> k.createdAt <= r.value.createdAt)
      else forall k :: k in keys ==> !Usable(k, now)
  {
    if keys == [] {
    } else {
      FirstUsableMember(keys[1..], now);
    }
  }

  /** `current` is an active unexpired key of maximal creation time, and exists when there is any such key. */
  lemma {:induction false} CurrentIsNewest(keys: seq<SigningKey>, now: int)
    ensures var r := CurrentKey(keys, now);
      if r.Some? then
        && r.value in keys && Usable(r.value, now)
        && (forall k :: k in keys && Usable(k, now) ==> k.createdAt <= r.value.createdAt)
      else forall k :: k in keys ==> !Usable(k, now)
  {
    SortIsDescending(keys);
    FirstUsableMember(SortedDesc(keys), now);
  }

  /** The same choice made in one pass: the earliest entry among those with maximal creation time. */
  function Newest(keys: seq<SigningKey>, now: int): Option<SigningKey> {
    if keys == [] then None
    else
      var rest := Newest(keys[1..], now);
      if Usable(keys[0], now) && (rest.None? || keys[0].createdAt >= rest.value.createdAt) then Some(keys[0]) else rest
  }

  lemma {:induction false} InsertFirstUsable(k: SigningKey, s: seq<SigningKey>, now: int)
    requires Descending(s)
    ensures
      var rest := FirstUsable(s, now);
      FirstUsable(Insert(k, s), now) ==
      if Usable(k, now) && (rest.None? || k.createdAt >= rest.value.createdAt) then Some(k) else rest
  {
    FirstUsableMember(s, now);
    if s != [] && k.createdAt < s[0].createdAt {
      InsertFirstUsable(k, s[1..], now);
      assert Insert(k, s)[1..] == Insert(k, s[1..]);
    } else {
      assert Insert(k, s)[1..] == s;
    }
  }

  lemma {:induction false} CurrentInOnePass(keys: seq<SigningKey>, now: int)
    ensures CurrentKey(keys, now) == Newest(keys, now)
  {
    if keys == [] {
    } else {
      CurrentInOnePass(keys[1..], now);
      SortIsDescending(keys[1..]);
      InsertFirstUsable(keys[0], SortedDesc(keys[1..]), now);
    }
  }

  // ---------------------------------------------------------------------------
  // Publication and acceptance
  // ---------------------------------------------------------------------------

  /** The entry under the key's own kid. */
  function Primary(k: SigningKey): Jwk {
    Entries(k)[0]
  }

  lemma {:induction false} JwksMembers(keys: seq<SigningKey>, now: int)
    ensures forall e :: e in Jwks(keys, now) <==> exists k :: k in keys && Published(k, now) && e in Entries(k)
  {
    if keys == [] {
    } else {
      JwksMembers(keys[1..], now);
    }
  }

  /** Published keys are exactly the accepted ones that are active or verify-only. */
  lemma {:induction false} PublishedIffAccepted(keys: seq<SigningKey>, k: SigningKey, now: int)
    requires UniqueKids(keys) && k in keys
    ensures Published(k, now) <==> ByKid(keys, k.kid, now) == Some(k) && (k.status == Active || k.status == VerifyOnly)
    ensures Published(k, now) ==> Primary(k) in Jwks(keys, now) && Primary(k).kid == k.kid
  {
    FindUnique(keys, k);
    JwksMembers(keys, now);
    if Published(k, now) { assert Primary(k) in Entries(k); }
  }

  /** At the instant it is chosen, the current key is published under its kid and accepted by its kid. */
  lemma {:induction false} CurrentIsPublished(keys: seq<SigningKey>, now: int)
    requires UniqueKids(keys) && CurrentKey(keys, now).Some?
    ensures
      var k := CurrentKey(keys, now).value;
      ByKid(keys, k.kid, now) == Some(k) && Primary(k) in Jwks(keys, now) && Primary(k).kid == k.kid
  {
    CurrentIsNewest(keys, now);
    PublishedIffAccepted(keys, CurrentKey(keys, now).value, now);
  }

  /** The same published keys, whatever the private parts: nothing of these is published. */
  lemma {:induction false} PrivatePartsAreNotPublished(p: seq<SigningKey>, q: seq<SigningKey>, now: int)
    requires |p| == |q| && forall i :: 0 <= i < |p| ==> WithoutPrivate(p[i]) == WithoutPrivate(q[i])
    ensures Jwks(p, now) == Jwks(q, now)
  {
    if p == [] {
    } else {
      PrivatePartsAreNotPublished(p[1..], q[1..], now);
      SameEntries(p[0], q[0]);
    }
  }

  function WithoutPrivate(k: SigningKey): SigningKey {
    k.(material := k.material.(privateKey := "", pqPrivateKey := ""))
  }

  lemma {:induction false} SameEntries(k: SigningKey, l: SigningKey)
    requires WithoutPrivate(k) == WithoutPrivate(l)
    ensures Entries(k) == Entries(l)
  {
    assert k == WithoutPrivate(k).(material := k.material) && l == WithoutPrivate(l).(material := l.material);
    assert k.material.publicKey == WithoutPrivate(k).material.publicKey;
    assert l.material.publicKey == WithoutPrivate(l).material.publicKey;
    assert k.material.pqPublicKey == WithoutPrivate(k).material.pqPublicKey;
    assert l.material.pqPublicKey == WithoutPrivate(l).material.pqPublicKey;
  }

  // ---------------------------------------------------------------------------
  // What an operation does to every lookup
  // ---------------------------------------------------------------------------

  /** A kid is accepted with the one unexpired, unrevoked key that has it. */
  lemma {:induction false} AcceptedIff(keys: seq<SigningKey>, k: SigningKey, kid: string, now: int)
    requires UniqueKids(keys)
    ensures ByKid(keys, kid, now) == Some(k) <==> k in keys && k.kid == kid && k.status != Revoked && now < k.expiresAt
  {
    if k in keys { FindUnique(keys, k); }
  }

  /** After an addition other kids are accepted as before, and the added one with the added key while it lasts. */
  lemma {:induction false} AdoptedIsAccepted(keys: seq<SigningKey>, key: SigningKey, at: int, kid: string, now: int)
    requires UniqueKids(keys) && at <= now
    ensures ByKid(Adopt(true, keys, key, at), kid, now) ==
            if kid != key.kid then ByKid(keys, kid, now)
            else if key.status != Revoked && now < key.expiresAt then Some(key)
            else None
  {
    hide UniqueKids, Put, Pruned, Find;
    var put := Put(keys, key);
    PutFind(keys, key, kid);
    PutUnique(keys, key);
    PrunedMembers(put, at);
    if Find(put, kid).Some? {
      if Find(put, kid).value.expiresAt >= at { PrunedKeeps(put, Find(put, kid).value, at); }
    }
  }

  /**
   * A generated key, of 30 days unless another lifetime is given, is accepted under its kid with its own material from
   * its addition until its lifetime is over.
   */
  lemma {:induction false} AddedIsAcceptedWhileItLasts(algorithm: Algorithm, keys: seq<SigningKey>, kid: string,
                                                       ttlMs: int, material: Material, at: int, other: string, now: int)
    requires UniqueKids(keys) && at <= now
    ensures
      var after := Apply(true, algorithm, keys, Add(kid, ttlMs, material), at);
      && (ByKid(after, kid, now).Some? <==> now < at + ttlMs)
      && (now < at + ttlMs ==>
            var k := ByKid(after, kid, now).value;
            k.material == material && k.algorithm == algorithm && Published(k, now) && Usable(k, now))
      && (other != kid ==> ByKid(after, other, now) == ByKid(keys, other, now))
    ensures CurrentKey(keys, at).None? ==>
      var after := Apply(true, algorithm, keys, UseCurrent(kid, material), at);
      && (ByKid(after, kid, now).Some? <==> now < at + 2_592_000_000)
      && (now < at + 2_592_000_000 ==> ByKid(after, kid, now).value.material == material)
      && (other != kid ==> ByKid(after, other, now) == ByKid(keys, other, now))
  {
    hide Adopt, ByKid, CurrentKey, UniqueKids;
    AdoptedIsAccepted(keys, NewKey(algorithm, kid, ttlMs, material, at), at, kid, now);
    AdoptedIsAccepted(keys, NewKey(algorithm, kid, ttlMs, material, at), at, other, now);
    AdoptedIsAccepted(keys, NewKey(algorithm, kid, DEFAULT_TTL_MS, material, at), at, kid, now);
    AdoptedIsAccepted(keys, NewKey(algorithm, kid, DEFAULT_TTL_MS, material, at), at, other, now);
  }

  /** A restored key comes back as it was saved; at most its activation time is filled in. */
  lemma {:induction false} RestoredIsAccepted(algorithm: Algorithm, keys: seq<SigningKey>, key: SigningKey, at: int,
                                              other: string, now: int)
    requires UniqueKids(keys) && at <= now && key.kid != ""
    ensures
      var after := Apply(true, algorithm, keys, Restore(key, true), at);
      && (ByKid(after, key.kid, now).Some? <==> key.status != Revoked && now < key.expiresAt)
      && (ByKid(after, key.kid, now).Some? ==>
            var k := ByKid(after, key.kid, now).value;
            && k.(activatedAt := None) == key.(activatedAt := None)
            && k.activatedAt == Some(if key.activatedAt.Some? then key.activatedAt.value else key.createdAt))
      && (other != key.kid ==> ByKid(after, other, now) == ByKid(keys, other, now))
  {
    hide Adopt, ByKid, UniqueKids;
    AdoptedIsAccepted(keys, Restored(key), at, key.kid, now);
    AdoptedIsAccepted(keys, Restored(key), at, other, now);
  }

  /**
   * A retired key is accepted and published as long as it would have been accepted anyway, with the same material, but
   * signs no more; other kids are not affected.
   */
  lemma {:induction false} RetiredOnlyVerifies(algorithm: Algorithm, keys: seq<SigningKey>, kid: string, at: int,
                                               other: string, now: int)
    requires UniqueKids(keys)
    ensures
      var after := Apply(true, algorithm, keys, Retire(kid), at);
      var before := ByKid(keys, kid, now);
      && (ByKid(after, kid, now).Some? <==> before.Some?)
      && (before.Some? ==>
            var k := ByKid(after, kid, now).value;
            k.material == before.value.material && k.algorithm == before.value.algorithm && Published(k, now))
      && (CurrentKey(after, now).Some? ==> CurrentKey(after, now).value.kid != kid)
      && (other != kid ==> ByKid(after, other, now) == ByKid(keys, other, now))
  {
    hide CurrentKey, UniqueKids, Put, Find;
    var after := Apply(true, algorithm, keys, Retire(kid), at);
    if Find(keys, kid).Some? {
      var retired := Find(keys, kid).value.(status := VerifyOnly, retiredAt := Some(at));
      PutFind(keys, retired, kid);
      PutFind(keys, retired, other);
      PutUnique(keys, retired);
    }
    CurrentIsNewest(after, now);
    if CurrentKey(after, now).Some? { FindUnique(after, CurrentKey(after, now).value); }
  }
}
