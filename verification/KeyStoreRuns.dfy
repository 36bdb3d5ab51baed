/** What the key store guarantees over every run of timed operations (packages/crypto/src/jwt.ts). */
module KeyStoreRuns {
  import opened Wrappers
  import opened KeyStore

  datatype Timed = Timed(op: Op, at: int)

  /** The keys after a run, with or without pruning. */
  function Exec(prunes: bool, algorithm: Algorithm, start: seq<SigningKey>, steps: seq<Timed>): seq<SigningKey> {
    if steps == [] then start
    else
      var last := steps[|steps| - 1];
      Apply(prunes, algorithm, Exec(prunes, algorithm, start, steps[..|steps| - 1]), last.op, last.at)
  }

  /** The clock does not run backwards, and `now` is not before the last step. */
  ghost predicate Clocked(steps: seq<Timed>, now: int) {
    && (forall i, j :: 0 <= i < j < |steps| ==> steps[i].at <= steps[j].at)
    && (forall i :: 0 <= i < |steps| ==> steps[i].at <= now)
  }

  lemma {:induction false} ApplyUnique(prunes: bool, algorithm: Algorithm, keys: seq<SigningKey>, op: Op, now: int)
    requires UniqueKids(keys)
    ensures UniqueKids(Apply(prunes, algorithm, keys, op, now))
  {
    hide CurrentKey, Put, Pruned, UniqueKids, Find;
    forall key: SigningKey
      ensures UniqueKids(Put(keys, key)) && UniqueKids(Pruned(Put(keys, key), now))
    {
      PutUnique(keys, key);
      PrunedUnique(Put(keys, key), now);
    }
    EmptyUnique();
  }

  lemma EmptyUnique()
    ensures UniqueKids([])
  {
  }

  lemma {:induction false} ExecUnique(prunes: bool, algorithm: Algorithm, steps: seq<Timed>)
    ensures UniqueKids(Exec(prunes, algorithm, [], steps))
  {
    if steps == [] {
    } else {
      ExecUnique(prunes, algorithm, steps[..|steps| - 1]);
      var last := steps[|steps| - 1];
      ApplyUnique(prunes, algorithm, Exec(prunes, algorithm, [], steps[..|steps| - 1]), last.op, last.at);
    }
  }

  // ---------------------------------------------------------------------------
  // Pruning is invisible
  // ---------------------------------------------------------------------------

  /** p is q with some expired keys pruned away. */
  ghost predicate Shadows(p: seq<SigningKey>, q: seq<SigningKey>, now: int) {
    forall kid :: Find(p, kid) == Find(q, kid) || PrunedAway(p, q, kid, now)
  }

  ghost predicate PrunedAway(p: seq<SigningKey>, q: seq<SigningKey>, kid: string, now: int) {
    Find(p, kid).None? && Find(q, kid).Some? && Find(q, kid).value.expiresAt < now
  }

  lemma {:induction false} ShadowsLater(p: seq<SigningKey>, q: seq<SigningKey>, now: int, later: int)
    requires Shadows(p, q, now) && now <= later
    ensures Shadows(p, q, later)
  {
    hide Find;
  }

  lemma {:induction false} PrunedFind(keys: seq<SigningKey>, kid: string, now: int)
    requires UniqueKids(keys)
    ensures Find(Pruned(keys, now), kid) ==
      if Find(keys, kid).Some? && Find(keys, kid).value.expiresAt >= now then Find(keys, kid) else None
  {
    hide Pruned, Find, UniqueKids;
    PrunedMembers(keys, now);
    PrunedUnique(keys, now);
    if Find(keys, kid).Some? && Find(keys, kid).value.expiresAt >= now {
      FindUnique(Pruned(keys, now), Find(keys, kid).value);
    } else if Find(Pruned(keys, now), kid).Some? {
      FindUnique(keys, Find(Pruned(keys, now), kid).value);
    }
  }

  /** Both stores adopt the same key. */
  lemma {:induction false} AdoptShadows(p: seq<SigningKey>, q: seq<SigningKey>, key: SigningKey, now: int)
    requires UniqueKids(p) && Shadows(p, q, now)
    ensures Shadows(Adopt(true, p, key, now), Adopt(false, q, key, now), now)
  {
    hide Put, Pruned, Find, UniqueKids;
    PutUnique(p, key);
    forall kid
      ensures
        var p', q' := Adopt(true, p, key, now), Adopt(false, q, key, now);
        Find(p', kid) == Find(q', kid) || PrunedAway(p', q', kid, now)
    {
      PutFind(p, key, kid);
      PutFind(q, key, kid);
      PrunedFind(Put(p, key), kid, now);
      assert Find(p, kid) == Find(q, kid) || PrunedAway(p, q, kid, now);
    }
  }

  /** The entry under a kid after a status change, as a function of the entry before; the expiry stays. */
  lemma {:induction false} StatusChange(prunes: bool, keys: seq<SigningKey>, op: Op, algorithm: Algorithm, now: int,
                                        kid: string)
    requires op.Retire? || op.Revoke?
    ensures Find(Apply(prunes, algorithm, keys, op, now), kid) ==
      var before := Find(keys, kid);
      if kid != op.kid || before.None? then before
      else if op.Revoke? then Some(before.value.(status := Revoked, revokedAt := Some(now)))
      else if before.value.status == Revoked then before
      else Some(before.value.(status := VerifyOnly, retiredAt := Some(now)))
  {
    hide Put, Find;
    match Find(keys, op.kid)
    case None =>
    case Some(k) =>
      PutFind(keys, k.(status := VerifyOnly, retiredAt := Some(now)), kid);
      PutFind(keys, k.(status := Revoked, revokedAt := Some(now)), kid);
  }

  lemma {:induction false} StatusShadows(p: seq<SigningKey>, q: seq<SigningKey>, op: Op, algorithm: Algorithm, now: int)
    requires op.Retire? || op.Revoke?
    requires Shadows(p, q, now)
    ensures Shadows(Apply(true, algorithm, p, op, now), Apply(false, algorithm, q, op, now), now)
  {
    hide Apply, Find;
    var p', q' := Apply(true, algorithm, p, op, now), Apply(false, algorithm, q, op, now);
    forall kid
      ensures Find(p', kid) == Find(q', kid) || PrunedAway(p', q', kid, now)
    {
      assert Find(p, kid) == Find(q, kid) || PrunedAway(p, q, kid, now);
      StatusChange(true, p, op, algorithm, now, kid);
      StatusChange(false, q, op, algorithm, now, kid);
    }
  }

  lemma {:induction false} SameUsable(p: seq<SigningKey>, q: seq<SigningKey>, now: int)
    requires UniqueKids(p) && UniqueKids(q) && Shadows(p, q, now)
    ensures forall k :: k in p && k.expiresAt > now <==> k in q && k.expiresAt > now
    ensures CurrentKey(p, now).Some? <==> CurrentKey(q, now).Some?
    ensures CurrentKey(p, now).Some? ==> CurrentKey(p, now).value.createdAt == CurrentKey(q, now).value.createdAt
  {
    hide CurrentKey, UniqueKids, Find;
    forall k: SigningKey
      ensures k in p && k.expiresAt > now <==> k in q && k.expiresAt > now
    {
      assert Find(p, k.kid) == Find(q, k.kid) || PrunedAway(p, q, k.kid, now);
      if k in p { FindUnique(p, k); }
      if k in q { FindUnique(q, k); }
    }
    CurrentIsNewest(p, now);
    CurrentIsNewest(q, now);
  }

  lemma {:induction false} ApplyShadows(algorithm: Algorithm, p: seq<SigningKey>, q: seq<SigningKey>, op: Op, now: int)
    requires UniqueKids(p) && UniqueKids(q) && Shadows(p, q, now)
    ensures Shadows(Apply(true, algorithm, p, op, now), Apply(false, algorithm, q, op, now), now)
  {
    hide Adopt, Shadows, UniqueKids, CurrentKey, Find, Put;
    match op
    case Add(kid, ttlMs, material) => AdoptShadows(p, q, NewKey(algorithm, kid, ttlMs, material, now), now);
    case Restore(key, materialOk) =>
      if key.kid != "" && materialOk { AdoptShadows(p, q, Restored(key), now); }
    case Retire(_) => StatusShadows(p, q, op, algorithm, now);
    case Revoke(_) => StatusShadows(p, q, op, algorithm, now);
    case Clear => ShadowsItself([], now);
    case UseCurrent(freshKid, material) =>
      SameUsable(p, q, now);
      AdoptShadows(p, q, NewKey(algorithm, freshKid, DEFAULT_TTL_MS, material, now), now);
  }

  lemma {:induction false} ShadowsItself(keys: seq<SigningKey>, now: int)
    ensures Shadows(keys, keys, now)
  {
  }

  /** Over every run on a clock that does not run backwards, pruning removes expired keys and does nothing else. */
  lemma {:induction false} PruningRemovesOnlyExpired(algorithm: Algorithm, steps: seq<Timed>, now: int)
    requires Clocked(steps, now)
    ensures Shadows(Exec(true, algorithm, [], steps), Exec(false, algorithm, [], steps), now)
    decreases |steps|
  {
    hide Shadows, Apply;
    if steps == [] {
      ShadowsItself([], now);
    } else {
      var init, last := steps[..|steps| - 1], steps[|steps| - 1];
      PruningRemovesOnlyExpired(algorithm, init, last.at);
      ExecUnique(true, algorithm, init);
      ExecUnique(false, algorithm, init);
      ApplyShadows(algorithm, Exec(true, algorithm, [], init), Exec(false, algorithm, [], init), last.op, last.at);
      ShadowsLater(Exec(true, algorithm, [], steps), Exec(false, algorithm, [], steps), last.at, now);
    }
  }

  /**
   * So pruning never shows in an answer: every lookup is the same, the same keys are published, and the current
   * key is equally new. Which of several equally new keys is current, and the order of publication, may differ:
   * see AddedCurrentIff.
   */
  lemma {:induction false} PruningIsInvisible(algorithm: Algorithm, steps: seq<Timed>, now: int)
    requires Clocked(steps, now)
    ensures
      var p, q := Exec(true, algorithm, [], steps), Exec(false, algorithm, [], steps);
      && (forall kid :: ByKid(p, kid, now) == ByKid(q, kid, now))
      && (forall e :: e in Jwks(p, now) <==> e in Jwks(q, now))
      && (CurrentKey(p, now).Some? <==> CurrentKey(q, now).Some?)
      && (CurrentKey(p, now).Some? ==> CurrentKey(p, now).value.createdAt == CurrentKey(q, now).value.createdAt)
  {
    hide Exec, CurrentKey, Jwks, UniqueKids, Find, Entries;
    var p, q := Exec(true, algorithm, [], steps), Exec(false, algorithm, [], steps);
    PruningRemovesOnlyExpired(algorithm, steps, now);
    ExecUnique(true, algorithm, steps);
    ExecUnique(false, algorithm, steps);
    SameUsable(p, q, now);
    forall kid
      ensures ByKid(p, kid, now) == ByKid(q, kid, now)
    {
      assert Find(p, kid) == Find(q, kid) || PrunedAway(p, q, kid, now);
    }
    JwksMembers(p, now);
    JwksMembers(q, now);
  }

  /**
   * `retire` and `revoke` throw in the same cases, except for a kid whose expired key has been pruned: only then
   * does pruning add an error.
   */
  lemma {:induction false} PruningAddsErrorsOnlyForExpired(algorithm: Algorithm, steps: seq<Timed>, now: int,
                                                           kid: string)
    requires Clocked(steps, now)
    ensures
      var p, q := Exec(true, algorithm, [], steps), Exec(false, algorithm, [], steps);
      Find(p, kid) != Find(q, kid) ==> PrunedAway(p, q, kid, now)
  {
    hide Exec, Find;
    PruningRemovesOnlyExpired(algorithm, steps, now);
  }

  // ---------------------------------------------------------------------------
  // Order
  // ---------------------------------------------------------------------------

  lemma {:induction false} LiveAppend(a: seq<SigningKey>, b: seq<SigningKey>, now: int)
    ensures Live(a + b, now) == Live(a, now) + Live(b, now)
  {
    if a == [] {
      assert a + b == b;
    } else {
      assert (a + b)[1..] == a[1..] + b;
      LiveAppend(a[1..], b, now);
    }
  }

  lemma {:induction false} LiveMembers(keys: seq<SigningKey>, now: int)
    ensures forall k :: k in Live(keys, now) <==> k in keys && k.expiresAt > now
  {
    if keys == [] {
    } else {
      LiveMembers(keys[1..], now);
    }
  }

  lemma {:induction false} LiveLater(keys: seq<SigningKey>, now: int, later: int)
    requires now <= later
    ensures Live(Live(keys, now), later) == Live(keys, later)
  {
    if keys == [] {
    } else {
      LiveLater(keys[1..], now, later);
      LiveAppend(if keys[0].expiresAt > now then [keys[0]] else [], Live(keys[1..], now), later);
    }
  }

  lemma {:induction false} LivePruned(keys: seq<SigningKey>, now: int)
    ensures Live(Pruned(keys, now), now) == Live(keys, now)
  {
    if keys == [] {
    } else {
      LivePruned(keys[1..], now);
      LiveAppend(if keys[0].expiresAt < now then [] else [keys[0]], Pruned(keys[1..], now), now);
    }
  }

  /** Setting a kid that is absent or live acts on the live entries alone. */
  lemma {:induction false} LivePut(keys: seq<SigningKey>, key: SigningKey, now: int)
    requires Find(keys, key.kid).Some? ==> Find(keys, key.kid).value.expiresAt > now
    ensures Live(Put(keys, key), now) == Live(Put(Live(keys, now), key), now)
  {
    if keys == [] {
    } else if keys[0].kid == key.kid {
      var rest := Live(keys[1..], now);
      assert Live(keys, now) == [keys[0]] + rest && ([keys[0]] + rest)[1..] == rest;
      assert Put(Live(keys, now), key) == [key] + rest;
      LiveAppend([key], rest, now);
      LiveAppend([key], keys[1..], now);
      LiveLater(keys[1..], now, now);
    } else {
      LivePut(keys[1..], key, now);
      var rest := Live(keys[1..], now);
      assert Put(keys, key) == [keys[0]] + Put(keys[1..], key);
      LiveAppend([keys[0]], Put(keys[1..], key), now);
      if keys[0].expiresAt > now {
        assert Live(keys, now) == [keys[0]] + rest && ([keys[0]] + rest)[1..] == rest;
        assert Put(Live(keys, now), key) == [keys[0]] + Put(rest, key);
        LiveAppend([keys[0]], Put(rest, key), now);
      } else {
        assert Live(keys, now) == rest;
      }
    }
  }

  /** Replacing an expired entry by an expired one changes no live entry. */
  lemma {:induction false} LivePutExpired(keys: seq<SigningKey>, key: SigningKey, now: int)
    requires Find(keys, key.kid).Some? && Find(keys, key.kid).value.expiresAt <= now && key.expiresAt <= now
    ensures Live(Put(keys, key), now) == Live(keys, now)
  {
    if keys[0].kid == key.kid {
      LiveAppend([key], keys[1..], now);
    } else {
      LivePutExpired(keys[1..], key, now);
      LiveAppend([keys[0]], Put(keys[1..], key), now);
    }
  }

  /** The key an operation adds, if it adds one. */
  function AddedKey(algorithm: Algorithm, keys: seq<SigningKey>, op: Op, now: int): Option<SigningKey> {
    match op
    case Add(kid, ttlMs, material) => Some(NewKey(algorithm, kid, ttlMs, material, now))
    case Restore(key, materialOk) => if key.kid == "" || !materialOk then None else Some(Restored(key))
    case UseCurrent(freshKid, material) =>
      if CurrentKey(keys, now).Some? then None else Some(NewKey(algorithm, freshKid, DEFAULT_TTL_MS, material, now))
    case _ => None
  }

  predicate HoldsLive(keys: seq<SigningKey>, kid: string, now: int) {
    Find(keys, kid).Some? && Find(keys, kid).value.expiresAt > now
  }

  /** How many live keys come before the kid's place: where it is held, or else the end. */
  function Place(keys: seq<SigningKey>, kid: string, now: int): (n: nat)
    ensures n <= |Live(keys, now)|
  {
    if keys == [] || keys[0].kid == kid then 0
    else (if keys[0].expiresAt > now then 1 else 0) + Place(keys[1..], kid, now)
  }

  /** Adding the key puts it in different places among the live keys of the two stores. */
  predicate Displaced(p: seq<SigningKey>, q: seq<SigningKey>, key: SigningKey, now: int) {
    key.expiresAt > now && !HoldsLive(q, key.kid, now) && Place(p, key.kid, now) != Place(q, key.kid, now)
  }

  predicate Displaces(algorithm: Algorithm, p: seq<SigningKey>, q: seq<SigningKey>, step: Timed) {
    var key := AddedKey(algorithm, q, step.op, step.at);
    key.Some? && Displaced(p, q, key.value, step.at)
  }

  /** No step of the run of a pruning and a hoarding store does that. */
  ghost predicate Undisplaced(algorithm: Algorithm, p: seq<SigningKey>, q: seq<SigningKey>, steps: seq<Timed>) {
    forall i :: 0 <= i < |steps| ==>
      !Displaces(algorithm, Exec(true, algorithm, p, steps[..i]), Exec(false, algorithm, q, steps[..i]), steps[i])
  }

  /** A pruning store and one that never prunes, with the same live keys in the same order. */
  ghost predicate Alike(p: seq<SigningKey>, q: seq<SigningKey>, now: int) {
    UniqueKids(p) && UniqueKids(q) && Shadows(p, q, now) && Live(p, now) == Live(q, now)
  }

  lemma {:induction false} AlikeLater(p: seq<SigningKey>, q: seq<SigningKey>, now: int, later: int)
    requires Alike(p, q, now) && now <= later
    ensures Alike(p, q, later)
  {
    ShadowsLater(p, q, now, later);
    LiveLater(p, now, later);
    LiveLater(q, now, later);
  }

  /** A dead key changes no live entry, unless it replaces one. */
  lemma {:induction false} LivePutDead(keys: seq<SigningKey>, key: SigningKey, now: int)
    requires key.expiresAt <= now && !HoldsLive(keys, key.kid, now)
    ensures Live(Put(keys, key), now) == Live(keys, now)
  {
    if keys == [] {
      LiveSingle(key, now);
    } else if keys[0].kid == key.kid {
      LiveAppend([key], keys[1..], now);
      LiveSingle(key, now);
    } else {
      LivePutDead(keys[1..], key, now);
      LiveAppend([keys[0]], Put(keys[1..], key), now);
      LiveAppend([keys[0]], keys[1..], now);
      assert keys == [keys[0]] + keys[1..];
    }
  }

  /** A live key goes to its place, unless it replaces a live one. */
  lemma {:induction false} LivePutPlace(keys: seq<SigningKey>, key: SigningKey, now: int)
    requires key.expiresAt > now && !HoldsLive(keys, key.kid, now)
    ensures
      var live, n := Live(keys, now), Place(keys, key.kid, now);
      Live(Put(keys, key), now) == live[..n] + [key] + live[n..]
  {
    hide Live;
    LiveSingle(key, now);
    LiveHead(keys, now);
    if keys == [] {
    } else if keys[0].kid == key.kid {
      LiveAppend([key], keys[1..], now);
    } else {
      var rest, m := Live(keys[1..], now), Place(keys[1..], key.kid, now);
      LivePutPlace(keys[1..], key, now);
      LiveHead([keys[0]] + Put(keys[1..], key), now);
      PutBehind(if keys[0].expiresAt > now then [keys[0]] else [], rest, key, m);
    }
  }

  lemma {:induction false} LiveHead(keys: seq<SigningKey>, now: int)
    ensures Live(keys, now) ==
            if keys == [] then [] else (if keys[0].expiresAt > now then [keys[0]] else []) + Live(keys[1..], now)
  {
  }

  lemma {:induction false} PutBehind<T>(front: seq<T>, rest: seq<T>, x: T, m: nat)
    requires m <= |rest|
    ensures
      var s, n := front + rest, |front| + m;
      s[..n] + [x] + s[n..] == front + (rest[..m] + [x] + rest[m..])
  {
    var s, n := front + rest, |front| + m;
    assert s[..n] == front + rest[..m] && s[n..] == rest[m..];
  }

  lemma {:induction false} SameHolding(p: seq<SigningKey>, q: seq<SigningKey>, kid: string, now: int)
    requires Shadows(p, q, now)
    ensures HoldsLive(p, kid, now) <==> HoldsLive(q, kid, now)
    ensures HoldsLive(q, kid, now) ==> Find(p, kid) == Find(q, kid)
  {
    hide Find;
    assert Find(p, kid) == Find(q, kid) || PrunedAway(p, q, kid, now);
  }

  /** A key put at different places of a list without it gives different lists. */
  lemma {:induction false} PlacesDiffer<T(!new)>(s: seq<T>, x: T, m: nat, n: nat)
    requires m <= |s| && n <= |s| && x !in s
    ensures s[..m] + [x] + s[m..] == s[..n] + [x] + s[n..] <==> m == n
  {
    if m < n {
      assert (s[..m] + [x] + s[m..])[m] == x && (s[..n] + [x] + s[n..])[m] == s[m];
    } else if n < m {
      assert (s[..n] + [x] + s[n..])[n] == x && (s[..m] + [x] + s[m..])[n] == s[n];
    }
  }

  /** Exactly the additions that displace a key break the common order of the live keys. */
  lemma {:induction false} AddedAlikeIff(p: seq<SigningKey>, q: seq<SigningKey>, key: SigningKey, now: int)
    requires Alike(p, q, now)
    ensures Alike(Adopt(true, p, key, now), Adopt(false, q, key, now), now) <==> !Displaced(p, q, key, now)
  {
    hide Put, Live, Find, Pruned, Place, UniqueKids;
    AdoptShadows(p, q, key, now);
    AdoptUnique(true, p, key, now);
    AdoptUnique(false, q, key, now);
    LivePruned(Put(p, key), now);
    SameHolding(p, q, key.kid, now);
    if HoldsLive(q, key.kid, now) {
      LivePut(p, key, now);
      LivePut(q, key, now);
    } else if key.expiresAt <= now {
      LivePutDead(p, key, now);
      LivePutDead(q, key, now);
    } else {
      LivePutPlace(p, key, now);
      LivePutPlace(q, key, now);
      NotLive(q, key, now);
      PlacesDiffer(Live(q, now), key, Place(p, key.kid, now), Place(q, key.kid, now));
    }
  }

  /** A kid that is not held live is no live key's kid. */
  lemma {:induction false} NotLive(keys: seq<SigningKey>, key: SigningKey, now: int)
    requires UniqueKids(keys) && !HoldsLive(keys, key.kid, now)
    ensures forall k :: k in Live(keys, now) ==> k.kid != key.kid
  {
    hide Live, UniqueKids, Find;
    LiveMembers(keys, now);
    forall k | k in Live(keys, now)
      ensures k.kid != key.kid
    {
      FindUnique(keys, k);
    }
  }

  lemma {:induction false} AdoptUnique(prunes: bool, keys: seq<SigningKey>, key: SigningKey, now: int)
    requires UniqueKids(keys)
    ensures UniqueKids(Adopt(prunes, keys, key, now))
  {
    hide UniqueKids, Put, Pruned;
    PutUnique(keys, key);
    PrunedUnique(Put(keys, key), now);
  }

  lemma {:induction false} StatusKeepsOrder(p: seq<SigningKey>, q: seq<SigningKey>, op: Op, algorithm: Algorithm,
                                            now: int)
    requires op.Retire? || op.Revoke?
    requires Shadows(p, q, now) && Live(p, now) == Live(q, now)
    ensures Live(Apply(true, algorithm, p, op, now), now) == Live(Apply(false, algorithm, q, op, now), now)
  {
    hide Put, Live, Find;
    assert Find(p, op.kid) == Find(q, op.kid) || PrunedAway(p, q, op.kid, now);
    StatusLive(true, p, op, algorithm, now);
    StatusLive(false, q, op, algorithm, now);
  }

  /** A status change of a live key acts on the live entries; of another kid, on none of them. */
  lemma {:induction false} StatusLive(prunes: bool, keys: seq<SigningKey>, op: Op, algorithm: Algorithm, now: int)
    requires op.Retire? || op.Revoke?
    ensures
      var k := Find(keys, op.kid);
      Live(Apply(prunes, algorithm, keys, op, now), now) ==
      if k.None? || k.value.expiresAt <= now || (op.Retire? && k.value.status == Revoked) then Live(keys, now)
      else if op.Revoke? then Live(Put(Live(keys, now), k.value.(status := Revoked, revokedAt := Some(now))), now)
      else Live(Put(Live(keys, now), k.value.(status := VerifyOnly, retiredAt := Some(now))), now)
  {
    hide Put, Live, Find;
    if Find(keys, op.kid).Some? {
      var k := Find(keys, op.kid).value;
      var key := if op.Revoke? then k.(status := Revoked, revokedAt := Some(now))
                 else k.(status := VerifyOnly, retiredAt := Some(now));
      if k.expiresAt > now { LivePut(keys, key, now); } else { LivePutExpired(keys, key, now); }
    }
  }

  /** Exactly the steps that displace a key break the common order of the live keys. */
  lemma {:induction false} StepAlikeIff(algorithm: Algorithm, p: seq<SigningKey>, q: seq<SigningKey>, step: Timed)
    requires Alike(p, q, step.at)
    ensures Alike(Apply(true, algorithm, p, step.op, step.at), Apply(false, algorithm, q, step.op, step.at), step.at)
            <==> !Displaces(algorithm, p, q, step)
  {
    hide Adopt, Shadows, UniqueKids, CurrentKey, Find, Put, Live, Displaced;
    var now := step.at;
    ApplyUnique(true, algorithm, p, step.op, now);
    ApplyUnique(false, algorithm, q, step.op, now);
    ApplyShadows(algorithm, p, q, step.op, now);
    match step.op
    case Add(kid, ttlMs, material) => AddedAlikeIff(p, q, NewKey(algorithm, kid, ttlMs, material, now), now);
    case Restore(key, materialOk) =>
      if key.kid != "" && materialOk { AddedAlikeIff(p, q, Restored(key), now); }
    case Retire(_) => StatusKeepsOrder(p, q, step.op, algorithm, now);
    case Revoke(_) => StatusKeepsOrder(p, q, step.op, algorithm, now);
    case Clear =>
    case UseCurrent(freshKid, material) =>
      SameUsable(p, q, now);
      if CurrentKey(q, now).None? {
        AddedAlikeIff(p, q, NewKey(algorithm, freshKid, DEFAULT_TTL_MS, material, now), now);
      }
  }

  lemma {:induction false} UndisplacedBefore(algorithm: Algorithm, p: seq<SigningKey>, q: seq<SigningKey>,
                                             steps: seq<Timed>)
    requires steps != [] && Undisplaced(algorithm, p, q, steps)
    ensures
      var init, last := steps[..|steps| - 1], steps[|steps| - 1];
      && Undisplaced(algorithm, p, q, init)
      && !Displaces(algorithm, Exec(true, algorithm, p, init), Exec(false, algorithm, q, init), last)
  {
    hide Exec, Displaces;
    var init := steps[..|steps| - 1];
    forall i | 0 <= i < |init|
      ensures !Displaces(algorithm, Exec(true, algorithm, p, init[..i]), Exec(false, algorithm, q, init[..i]), init[i])
    {
      assert init[..i] == steps[..i];
      assert !Displaces(algorithm, Exec(true, algorithm, p, steps[..i]), Exec(false, algorithm, q, steps[..i]),
                        steps[i]);
    }
    var n := |steps| - 1;
    assert !Displaces(algorithm, Exec(true, algorithm, p, steps[..n]), Exec(false, algorithm, q, steps[..n]), steps[n]);
  }

  /** The run goes on from time `from`. */
  ghost predicate Since(from: int, steps: seq<Timed>) {
    forall i :: 0 <= i < |steps| ==> from <= steps[i].at
  }

  /** Runs that displace no key keep two such stores alike. */
  lemma {:induction false} StaysAlike(algorithm: Algorithm, p: seq<SigningKey>, q: seq<SigningKey>, from: int,
                                      steps: seq<Timed>, now: int)
    requires Alike(p, q, from) && from <= now && Since(from, steps) && Clocked(steps, now)
    requires Undisplaced(algorithm, p, q, steps)
    ensures Alike(Exec(true, algorithm, p, steps), Exec(false, algorithm, q, steps), now)
    decreases |steps|
  {
    hide Alike, Apply, Displaces, Undisplaced;
    if steps == [] {
      AlikeLater(p, q, from, now);
    } else {
      var init, last := steps[..|steps| - 1], steps[|steps| - 1];
      UndisplacedBefore(algorithm, p, q, steps);
      StaysAlike(algorithm, p, q, from, init, last.at);
      StepAlikeIff(algorithm, Exec(true, algorithm, p, init), Exec(false, algorithm, q, init), last);
      AlikeLater(Exec(true, algorithm, p, steps), Exec(false, algorithm, q, steps), last.at, now);
    }
  }

  /** In runs from the empty store that displace no key, even the order of the live keys is unaffected by pruning. */
  lemma {:induction false} PruningKeepsOrder(algorithm: Algorithm, steps: seq<Timed>, now: int)
    requires Clocked(steps, now) && Undisplaced(algorithm, [], [], steps)
    ensures Alike(Exec(true, algorithm, [], steps), Exec(false, algorithm, [], steps), now)
  {
    hide Exec, Shadows, Live, Undisplaced;
    EmptyUnique();
    var from := if steps == [] then now else steps[0].at;
    ShadowsItself([], from);
    StaysAlike(algorithm, [], [], from, steps, now);
  }

  lemma {:induction false} AnswersFromLive(keys: seq<SigningKey>, now: int)
    ensures Jwks(Live(keys, now), now) == Jwks(keys, now)
    ensures Newest(Live(keys, now), now) == Newest(keys, now)
  {
    if keys == [] {
    } else {
      AnswersFromLive(keys[1..], now);
      var rest := Live(keys[1..], now);
      if keys[0].expiresAt > now {
        assert Live(keys, now) == [keys[0]] + rest && ([keys[0]] + rest)[1..] == rest;
      } else {
        assert Live(keys, now) == rest;
        assert Jwks(keys, now) == Jwks(keys[1..], now);
      }
    }
  }

  /** Then the current key and the published list are the very same. */
  lemma {:induction false} PruningIsInvisibleInOrder(algorithm: Algorithm, steps: seq<Timed>, now: int)
    requires Clocked(steps, now) && Undisplaced(algorithm, [], [], steps)
    ensures
      var p, q := Exec(true, algorithm, [], steps), Exec(false, algorithm, [], steps);
      CurrentKey(p, now) == CurrentKey(q, now) && Jwks(p, now) == Jwks(q, now)
  {
    hide Exec, Live, Jwks, Newest, CurrentKey;
    var p, q := Exec(true, algorithm, [], steps), Exec(false, algorithm, [], steps);
    PruningKeepsOrder(algorithm, steps, now);
    AnswersFromLive(p, now);
    AnswersFromLive(q, now);
    CurrentInOnePass(p, now);
    CurrentInOnePass(q, now);
  }

  // ---------------------------------------------------------------------------
  // What an addition does to the answers
  // ---------------------------------------------------------------------------

  function Min(a: nat, b: nat): nat {
    if a <= b then a else b
  }

  function Max(a: nat, b: nat): nat {
    if a <= b then b else a
  }

  /** The live keys before the kid's places in the two stores, between them, and behind them. */
  ghost function Ahead(p: seq<SigningKey>, q: seq<SigningKey>, kid: string, now: int): seq<SigningKey>
    requires Alike(p, q, now)
  {
    Live(q, now)[..Min(Place(p, kid, now), Place(q, kid, now))]
  }

  ghost function Between(p: seq<SigningKey>, q: seq<SigningKey>, kid: string, now: int): seq<SigningKey>
    requires Alike(p, q, now)
  {
    Live(q, now)[Min(Place(p, kid, now), Place(q, kid, now))..Max(Place(p, kid, now), Place(q, kid, now))]
  }

  ghost function Behind(p: seq<SigningKey>, q: seq<SigningKey>, kid: string, now: int): seq<SigningKey>
    requires Alike(p, q, now)
  {
    Live(q, now)[Max(Place(p, kid, now), Place(q, kid, now))..]
  }

  /** One list has the added part before, the other behind what is between. */
  ghost predicate Apart(s: seq<SigningKey>, t: seq<SigningKey>, a: seq<SigningKey>, k: seq<SigningKey>,
                        b: seq<SigningKey>, c: seq<SigningKey>)
  {
    (s == a + k + b + c && t == a + b + k + c) || (t == a + k + b + c && s == a + b + k + c)
  }

  lemma {:induction false} AddedLive(p: seq<SigningKey>, q: seq<SigningKey>, key: SigningKey, now: int)
    requires Alike(p, q, now) && !HoldsLive(q, key.kid, now)
    ensures Apart(Live(Adopt(true, p, key, now), now), Live(Adopt(false, q, key, now), now),
                  Ahead(p, q, key.kid, now), Live([key], now), Between(p, q, key.kid, now), Behind(p, q, key.kid, now))
  {
    hide Put, Live, Find, Pruned, Place, UniqueKids;
    var live, m, n := Live(q, now), Place(p, key.kid, now), Place(q, key.kid, now);
    var a, b, c := Ahead(p, q, key.kid, now), Between(p, q, key.kid, now), Behind(p, q, key.kid, now);
    LivePruned(Put(p, key), now);
    SameHolding(p, q, key.kid, now);
    LiveSingle(key, now);
    if key.expiresAt <= now {
      LivePutDead(p, key, now);
      LivePutDead(q, key, now);
      assert live == a + [] + b + c && live == a + b + [] + c;
    } else {
      LivePutPlace(p, key, now);
      LivePutPlace(q, key, now);
      TwoPlaces(live, key, m, n);
    }
  }

  lemma {:induction false} TwoPlaces(live: seq<SigningKey>, key: SigningKey, m: nat, n: nat)
    requires m <= |live| && n <= |live|
    ensures Apart(live[..m] + [key] + live[m..], live[..n] + [key] + live[n..],
                  live[..Min(m, n)], [key], live[Min(m, n)..Max(m, n)], live[Max(m, n)..])
  {
    var a, b, c := live[..Min(m, n)], live[Min(m, n)..Max(m, n)], live[Max(m, n)..];
    assert live[Min(m, n)..] == b + c && live[..Max(m, n)] == a + b;
    assert a + [key] + (b + c) == a + [key] + b + c;
  }

  /** The same at a later instant. */
  lemma {:induction false} AddedLiveLater(p: seq<SigningKey>, q: seq<SigningKey>, key: SigningKey, now: int, later: int)
    requires Alike(p, q, now) && !HoldsLive(q, key.kid, now) && now <= later
    ensures Apart(Live(Adopt(true, p, key, now), later), Live(Adopt(false, q, key, now), later),
                  Live(Ahead(p, q, key.kid, now), later), Live([key], later), Live(Between(p, q, key.kid, now), later),
                  Live(Behind(p, q, key.kid, now), later))
  {
    hide Adopt, Live, HoldsLive, Ahead, Between, Behind, Alike;
    var a, b, c := Ahead(p, q, key.kid, now), Between(p, q, key.kid, now), Behind(p, q, key.kid, now);
    var k := Live([key], now);
    AddedLive(p, q, key, now);
    LiveLater(Adopt(true, p, key, now), now, later);
    LiveLater(Adopt(false, q, key, now), now, later);
    LiveLater([key], now, later);
    LiveFour(a, k, b, c, later);
    LiveFour(a, b, k, c, later);
  }

  lemma {:induction false} LiveFour(a: seq<SigningKey>, b: seq<SigningKey>, c: seq<SigningKey>, d: seq<SigningKey>,
                                    now: int)
    ensures Live(a + b + c + d, now) == Live(a, now) + Live(b, now) + Live(c, now) + Live(d, now)
  {
    hide Live;
    LiveAppend(a + b + c, d, now);
    LiveAppend(a + b, c, now);
    LiveAppend(a, b, now);
  }

  /** The keys between are held by the hoarding store, under other kids. */
  lemma {:induction false} BetweenIsHeld(p: seq<SigningKey>, q: seq<SigningKey>, key: SigningKey, now: int)
    requires Alike(p, q, now) && !HoldsLive(q, key.kid, now)
    ensures forall k :: k in Between(p, q, key.kid, now) ==> k.kid != key.kid
  {
    hide Live, Find, Place, UniqueKids;
    NotLive(q, key, now);
    forall k | k in Between(p, q, key.kid, now)
      ensures k in Live(q, now)
    {
    }
  }

  /**
   * After an addition, at that and any later instant before the next operation, the two stores sign with different
   * keys exactly when the added key is usable then, a usable key between its places is just as new, none before is,
   * and none behind is newer.
   */
  lemma {:induction false} AddedCurrentIff(p: seq<SigningKey>, q: seq<SigningKey>, key: SigningKey, now: int,
                                           later: int)
    requires Alike(p, q, now) && !HoldsLive(q, key.kid, now) && now <= later
    ensures
      var a, b := CurrentKey(Ahead(p, q, key.kid, now), later), CurrentKey(Between(p, q, key.kid, now), later);
      var c := CurrentKey(Behind(p, q, key.kid, now), later);
      CurrentKey(Adopt(true, p, key, now), later) != CurrentKey(Adopt(false, q, key, now), later) <==>
        && Usable(key, later) && b.Some? && b.value.createdAt == key.createdAt
        && (a.Some? ==> a.value.createdAt < key.createdAt)
        && (c.Some? ==> c.value.createdAt <= key.createdAt)
  {
    hide Adopt, Live, HoldsLive, CurrentKey, Newest, Ahead, Between, Behind, Alike;
    var a, b, c := Ahead(p, q, key.kid, now), Between(p, q, key.kid, now), Behind(p, q, key.kid, now);
    AddedLiveLater(p, q, key, now, later);
    CurrentOfLive(Adopt(true, p, key, now), later);
    CurrentOfLive(Adopt(false, q, key, now), later);
    CurrentOfLive(a, later);
    CurrentOfLive(b, later);
    CurrentOfLive(c, later);
    CurrentOfLive([key], later);
    NewestSingle(key, later);
    NewestFour(Live(a, later), Live([key], later), Live(b, later), Live(c, later), later);
    NewestFour(Live(a, later), Live(b, later), Live([key], later), Live(c, later), later);
    if CurrentKey(b, later).Some? {
      CurrentIsNewest(b, later);
      BetweenIsHeld(p, q, key, now);
    }
  }

  lemma {:induction false} NewestFour(a: seq<SigningKey>, b: seq<SigningKey>, c: seq<SigningKey>, d: seq<SigningKey>,
                                      now: int)
    ensures Newest(a + b + c + d, now)
         == Newer(Newer(Newer(Newest(a, now), Newest(b, now)), Newest(c, now)), Newest(d, now))
  {
    hide Newest;
    NewestAppend(a + b + c, d, now);
    NewestAppend(a + b, c, now);
    NewestAppend(a, b, now);
  }

  lemma {:induction false} CurrentOfLive(keys: seq<SigningKey>, now: int)
    ensures CurrentKey(keys, now) == Newest(keys, now) == Newest(Live(keys, now), now)
  {
    CurrentInOnePass(keys, now);
    AnswersFromLive(keys, now);
  }

  /** The newer of two keys, the first one among equals. */
  function Newer(k: Option<SigningKey>, l: Option<SigningKey>): Option<SigningKey> {
    if k.Some? && (l.None? || k.value.createdAt >= l.value.createdAt) then k else l
  }

  lemma {:induction false} NewestAppend(x: seq<SigningKey>, y: seq<SigningKey>, now: int)
    ensures Newest(x + y, now) == Newer(Newest(x, now), Newest(y, now))
  {
    if x == [] {
      assert x + y == y;
    } else {
      assert (x + y)[1..] == x[1..] + y;
      NewestAppend(x[1..], y, now);
    }
  }

  lemma {:induction false} NewestSingle(k: SigningKey, now: int)
    ensures Newest([k], now) == if Usable(k, now) then Some(k) else None
  {
  }

  /** Moving y behind z changes nothing exactly when one of them is empty, if their first elements differ. */
  lemma {:induction false} SwapTail<T>(x: seq<T>, y: seq<T>, z: seq<T>)
    requires y != [] && z != [] ==> y[0] != z[0]
    ensures x + z + y == x + y + z <==> y == [] || z == []
  {
    if y != [] && z != [] {
      assert (x + z + y)[|x|] == z[0] && (x + y + z)[|x|] == y[0];
    }
  }

  /** And they publish different lists exactly when the added key is published then and so is some key between. */
  lemma {:induction false} AddedJwksIff(p: seq<SigningKey>, q: seq<SigningKey>, key: SigningKey, now: int, later: int)
    requires Alike(p, q, now) && !HoldsLive(q, key.kid, now) && now <= later
    ensures Jwks(Adopt(true, p, key, now), later) != Jwks(Adopt(false, q, key, now), later) <==>
            Published(key, later) && exists k :: k in Between(p, q, key.kid, now) && Published(k, later)
  {
    hide Adopt, Live, HoldsLive, Jwks, Entries, Ahead, Between, Behind, Alike;
    var a, b, c := Ahead(p, q, key.kid, now), Between(p, q, key.kid, now), Behind(p, q, key.kid, now);
    AddedLiveLater(p, q, key, now, later);
    AnswersFromLive(Adopt(true, p, key, now), later);
    AnswersFromLive(Adopt(false, q, key, now), later);
    AnswersFromLive(b, later);
    AnswersFromLive([key], later);
    JwksFour(Live(a, later), Live([key], later), Live(b, later), Live(c, later), later);
    JwksFour(Live(a, later), Live(b, later), Live([key], later), Live(c, later), later);
    FirstPublished([key], later);
    FirstPublished(b, later);
    if Jwks(b, later) != [] {
      BetweenIsHeld(p, q, key, now);
      var k :| k in b && Published(k, later) && Jwks(b, later)[0] == Primary(k);
      PrimaryKid(k);
      PrimaryKid(key);
    }
    SwapMiddle(Jwks(Live(a, later), later), Jwks([key], later), Jwks(b, later), Jwks(Live(c, later), later));
  }

  lemma {:induction false} JwksFour(a: seq<SigningKey>, b: seq<SigningKey>, c: seq<SigningKey>, d: seq<SigningKey>,
                                    now: int)
    ensures Jwks(a + b + c + d, now) == Jwks(a, now) + Jwks(b, now) + Jwks(c, now) + Jwks(d, now)
  {
    hide Jwks;
    JwksAppend(a + b + c, d, now);
    JwksAppend(a + b, c, now);
    JwksAppend(a, b, now);
  }

  lemma {:induction false} SwapMiddle<T>(x: seq<T>, y: seq<T>, z: seq<T>, w: seq<T>)
    requires y != [] && z != [] ==> y[0] != z[0]
    ensures x + z + y + w == x + y + z + w <==> y == [] || z == []
  {
    SwapTail(x, y, z);
    SameFront(x + z + y, x + y + z, w);
  }

  lemma {:induction false} SameFront<T>(s: seq<T>, t: seq<T>, w: seq<T>)
    requires |s| == |t|
    ensures s + w == t + w <==> s == t
  {
    assert (s + w)[..|s|] == s && (t + w)[..|t|] == t;
  }

  lemma {:induction false} PrimaryKid(k: SigningKey)
    ensures Primary(k).kid == k.kid
  {
  }

  lemma {:induction false} JwksAppend(x: seq<SigningKey>, y: seq<SigningKey>, now: int)
    ensures Jwks(x + y, now) == Jwks(x, now) + Jwks(y, now)
  {
    hide Entries;
    if x == [] {
      assert x + y == y;
    } else {
      assert (x + y)[1..] == x[1..] + y;
      JwksAppend(x[1..], y, now);
    }
  }

  /** The list is empty exactly when no key is published, and starts with a published key's primary entry. */
  lemma {:induction false} FirstPublished(keys: seq<SigningKey>, now: int)
    ensures Jwks(keys, now) == [] <==> !exists k :: k in keys && Published(k, now)
    ensures Jwks(keys, now) != [] ==> exists k :: k in keys && Published(k, now) && Jwks(keys, now)[0] == Primary(k)
  {
    if keys == [] {
    } else {
      FirstPublished(keys[1..], now);
      if Published(keys[0], now) { assert Jwks(keys, now)[0] == Primary(keys[0]); }
    }
  }

  /**
   * When the added kid's expired key d was pruned, the keys between are the live ones behind d's old place: the
   * pruning store puts the added key last.
   */
  lemma {:induction false} PrunedPlaces(p: seq<SigningKey>, a: seq<SigningKey>, d: SigningKey, b: seq<SigningKey>,
                                        now: int)
    requires Alike(p, a + [d] + b, now) && Find(p, d.kid).None?
    ensures !HoldsLive(a + [d] + b, d.kid, now)
    ensures
      var q := a + [d] + b;
      && Ahead(p, q, d.kid, now) == Live(a, now) && Between(p, q, d.kid, now) == Live(b, now)
      && Behind(p, q, d.kid, now) == []
  {
    hide Live, Find, UniqueKids, Place, HoldsLive;
    var q := a + [d] + b;
    assert q[|a|] == d;
    FindUnique(q, d);
    PlaceAtEnd(p, d.kid, now);
    DeadUnlessHeld(p, q, d, now);
    OtherKids(a, d, b);
    PlaceAt(a, d, b, now);
    LiveAppend(a + [d], b, now);
    LiveAppend(a, [d], now);
    LiveSingle(d, now);
    assert Live(q, now) == Live(a, now) + Live(b, now);
  }

  lemma {:induction false} DeadUnlessHeld(p: seq<SigningKey>, q: seq<SigningKey>, d: SigningKey, now: int)
    requires Shadows(p, q, now) && Find(p, d.kid).None? && Find(q, d.kid) == Some(d)
    ensures d.expiresAt <= now && !HoldsLive(q, d.kid, now)
  {
    hide Find;
    assert Find(p, d.kid) == Find(q, d.kid) || PrunedAway(p, q, d.kid, now);
  }

  lemma {:induction false} OtherKids(a: seq<SigningKey>, d: SigningKey, b: seq<SigningKey>)
    requires UniqueKids(a + [d] + b)
    ensures forall k :: k in a ==> k.kid != d.kid
  {
    forall k | k in a
      ensures k.kid != d.kid
    {
      var i :| 0 <= i < |a| && a[i] == k;
      assert (a + [d] + b)[i] == k && (a + [d] + b)[|a|] == d;
    }
  }

  lemma {:induction false} PlaceAtEnd(keys: seq<SigningKey>, kid: string, now: int)
    requires Find(keys, kid).None?
    ensures Place(keys, kid, now) == |Live(keys, now)|
  {
    if keys == [] {
    } else {
      PlaceAtEnd(keys[1..], kid, now);
    }
  }

  lemma {:induction false} PlaceAt(a: seq<SigningKey>, d: SigningKey, b: seq<SigningKey>, now: int)
    requires forall k :: k in a ==> k.kid != d.kid
    ensures Place(a + [d] + b, d.kid, now) == |Live(a, now)|
  {
    var q := a + [d] + b;
    if a == [] {
      assert q[0] == d;
    } else {
      assert q[0] == a[0] && q[1..] == a[1..] + [d] + b;
      PlaceAt(a[1..], d, b, now);
    }
  }

  /**
   * Over runs: after any run that displaced no key, adding a kid whose expired key d was pruned makes another key sign,
   * at that or any later instant before the next operation, exactly when the added key and the newest usable key
   * behind d's old place are equally new and newer than all before it; and makes another list be published exactly
   * when the added key and some key behind the place are published.
   */
  lemma {:induction false} ReadditionIff(algorithm: Algorithm, steps: seq<Timed>, a: seq<SigningKey>, d: SigningKey,
                                         b: seq<SigningKey>, key: SigningKey, now: int, later: int)
    requires Clocked(steps, now) && Undisplaced(algorithm, [], [], steps) && now <= later
    requires Exec(false, algorithm, [], steps) == a + [d] + b && d.kid == key.kid
    requires Find(Exec(true, algorithm, [], steps), key.kid).None?
    ensures
      var p, q := Exec(true, algorithm, [], steps), Exec(false, algorithm, [], steps);
      var p', q' := Adopt(true, p, key, now), Adopt(false, q, key, now);
      && (CurrentKey(p', later) != CurrentKey(q', later) <==>
            && Usable(key, later)
            && CurrentKey(b, later).Some? && CurrentKey(b, later).value.createdAt == key.createdAt
            && (CurrentKey(a, later).Some? ==> CurrentKey(a, later).value.createdAt < key.createdAt))
      && (Jwks(p', later) != Jwks(q', later) <==> Published(key, later) && exists k :: k in b && Published(k, later))
  {
    hide Exec, Adopt, Live, Find, CurrentKey, Jwks, Undisplaced, HoldsLive, Ahead, Between, Behind, Alike, Newest;
    var p, q := Exec(true, algorithm, [], steps), a + [d] + b;
    PruningKeepsOrder(algorithm, steps, now);
    PrunedPlaces(p, a, d, b, now);
    AddedCurrentIff(p, q, key, now, later);
    AddedJwksIff(p, q, key, now, later);
    CurrentLater(a, now, later);
    CurrentLater(b, now, later);
    EmptyAnswers(later);
    PublishedLive(b, now, later);
  }

  lemma {:induction false} CurrentLater(keys: seq<SigningKey>, now: int, later: int)
    requires now <= later
    ensures CurrentKey(Live(keys, now), later) == CurrentKey(keys, later)
  {
    hide Live, CurrentKey, Newest;
    CurrentOfLive(keys, later);
    CurrentOfLive(Live(keys, now), later);
    LiveLater(keys, now, later);
  }

  lemma {:induction false} PublishedLive(keys: seq<SigningKey>, now: int, later: int)
    requires now <= later
    ensures forall k :: Published(k, later) ==> (k in Live(keys, now) <==> k in keys)
  {
    hide Live;
    LiveMembers(keys, now);
  }

  // ---------------------------------------------------------------------------
  // Ever after
  // ---------------------------------------------------------------------------

  ghost predicate SameAnswers(p: seq<SigningKey>, q: seq<SigningKey>, now: int) {
    CurrentKey(p, now) == CurrentKey(q, now) && Jwks(p, now) == Jwks(q, now)
  }

  /** The run goes on from `now` to `later` without displacing a key. */
  ghost predicate Continues(algorithm: Algorithm, p: seq<SigningKey>, q: seq<SigningKey>, now: int, more: seq<Timed>,
                            later: int)
  {
    now <= later && Since(now, more) && Clocked(more, later) && Undisplaced(algorithm, p, q, more)
  }

  lemma {:induction false} AlikeAnswers(p: seq<SigningKey>, q: seq<SigningKey>, now: int)
    requires Alike(p, q, now)
    ensures SameAnswers(p, q, now)
  {
    hide Live, Jwks, Newest, CurrentKey;
    AnswersFromLive(p, now);
    AnswersFromLive(q, now);
    CurrentOfLive(p, now);
    CurrentOfLive(q, now);
  }

  /** Replacing a live key by a live one happens in place, in either store. */
  lemma {:induction false} ReplacedLive(prunes: bool, keys: seq<SigningKey>, x: seq<SigningKey>, k: SigningKey,
                                        y: seq<SigningKey>, key: SigningKey, now: int)
    requires Live(keys, now) == x + [k] + y && UniqueKids(keys) && k.kid == key.kid && key.expiresAt > now
    ensures Live(Adopt(prunes, keys, key, now), now) == x + [key] + y
  {
    hide Live, Put, Find, UniqueKids, Pruned;
    LiveMembers(keys, now);
    LiveUnique(keys, now);
    OtherKids(x, k, y);
    assert (x + [k] + y)[|x|] == k;
    assert k in Live(keys, now);
    FindUnique(keys, k);
    LivePut(keys, key, now);
    PutAt(x, k, y, key);
    LivePruned(Put(keys, key), now);
    LiveLater(keys, now, now);
    LiveAppend(x + [k], y, now);
    LiveAppend(x, [k], now);
    LiveAppend(x + [key], y, now);
    LiveAppend(x, [key], now);
    LiveSingle(k, now);
    LiveSingle(key, now);
    LiveParts(x, k, y, now);
  }

  /** Replacing one that is further behind leaves the front as it is. */
  lemma {:induction false} ReplacedBehind(prunes: bool, keys: seq<SigningKey>, x: seq<SigningKey>, h: SigningKey,
                                          y: seq<SigningKey>, k: SigningKey, key: SigningKey, now: int)
    returns (y': seq<SigningKey>)
    requires Live(keys, now) == x + [h] + y && UniqueKids(keys)
    requires k in y && k.kid == key.kid && key.expiresAt > now
    ensures Live(Adopt(prunes, keys, key, now), now) == x + [h] + y'
  {
    hide Live, Adopt, UniqueKids;
    var i :| 0 <= i < |y| && y[i] == k;
    y' := y[..i] + [key] + y[i + 1..];
    assert x + [h] + y == (x + [h] + y[..i]) + [k] + y[i + 1..];
    ReplacedLive(prunes, keys, x + [h] + y[..i], k, y[i + 1..], key, now);
    assert (x + [h] + y[..i]) + [key] + y[i + 1..] == x + [h] + y';
  }

  /** A list that is all live has live parts. */
  lemma {:induction false} LiveParts(x: seq<SigningKey>, k: SigningKey, y: seq<SigningKey>, now: int)
    requires Live(x + [k] + y, now) == x + [k] + y
    ensures Live(x, now) == x && Live(y, now) == y
  {
    hide Live;
    LiveMembers(x + [k] + y, now);
    forall l | l in x || l in y
      ensures l.expiresAt > now
    {
      assert l in x + [k] + y;
    }
    AllLive(x, now);
    AllLive(y, now);
  }

  lemma {:induction false} AllLive(keys: seq<SigningKey>, now: int)
    requires forall k :: k in keys ==> k.expiresAt > now
    ensures Live(keys, now) == keys
  {
    if keys == [] {
    } else {
      AllLive(keys[1..], now);
      assert keys == [keys[0]] + keys[1..];
    }
  }

  /** The two steps that replace the added key and a key after d, each in place, by equally new ones. */
  function Renewal(first: string, second: string, now: int): seq<Timed> {
    var m := Material("", "", "", "");
    [Timed(Add(first, 1, m), now), Timed(Add(second, 1, m), now)]
  }

  lemma {:induction false} ExecRenewal(prunes: bool, algorithm: Algorithm, keys: seq<SigningKey>, first: string,
                                       second: string, now: int)
    ensures
      var m := Material("", "", "", "");
      var once := Adopt(prunes, keys, NewKey(algorithm, first, 1, m, now), now);
      var steps := Renewal(first, second, now);
      && Exec(prunes, algorithm, keys, steps[..0]) == keys
      && Exec(prunes, algorithm, keys, steps[..1]) == once
      && Exec(prunes, algorithm, keys, steps) == Adopt(prunes, once, NewKey(algorithm, second, 1, m, now), now)
  {
    hide Adopt;
    var steps := Renewal(first, second, now);
    assert steps[..1][..0] == steps[..0] == [];
    assert steps[..|steps| - 1] == steps[..1] && steps[..1][|steps[..1]| - 1] == steps[0];
  }

  /** Renewing two live keys displaces none. */
  lemma {:induction false} RenewalContinues(algorithm: Algorithm, p: seq<SigningKey>, q: seq<SigningKey>,
                                            k: SigningKey, l: SigningKey, now: int)
    requires Find(q, k.kid) == Some(k) && Find(q, l.kid) == Some(l) && k.kid != l.kid
    requires k.expiresAt > now && l.expiresAt > now
    ensures Continues(algorithm, p, q, now, Renewal(k.kid, l.kid, now), now)
  {
    hide Exec, Find, Put;
    var m := Material("", "", "", "");
    var steps := Renewal(k.kid, l.kid, now);
    ExecRenewal(false, algorithm, q, k.kid, l.kid, now);
    PutFind(q, NewKey(algorithm, k.kid, 1, m, now), l.kid);
    forall i | 0 <= i < |steps|
      ensures !Displaces(algorithm, Exec(true, algorithm, p, steps[..i]), Exec(false, algorithm, q, steps[..i]),
                         steps[i])
    {
    }
  }

  /** Lists that go on with keys of different kids are published differently. */
  lemma {:induction false} FrontsShow(x: seq<SigningKey>, k: SigningKey, y: seq<SigningKey>, l: SigningKey,
                                      z: seq<SigningKey>, now: int)
    requires Published(k, now) && Published(l, now) && k.kid != l.kid
    ensures Jwks(x + [k] + y, now) != Jwks(x + [l] + z, now)
  {
    hide Entries, Jwks;
    JwksAppend(x + [k], y, now);
    JwksAppend(x, [k], now);
    JwksAppend(x + [l], z, now);
    JwksAppend(x, [l], now);
    JwksOfOne(k, now);
    JwksOfOne(l, now);
    PrimaryKid(k);
    PrimaryKid(l);
    var n := |Jwks(x, now)|;
    assert Jwks(x + [k] + y, now)[n] == Primary(k);
    assert Jwks(x + [l] + z, now)[n] == Primary(l);
  }

  lemma {:induction false} JwksOfOne(k: SigningKey, now: int)
    requires Published(k, now)
    ensures Jwks([k], now) != [] && Jwks([k], now)[0] == Primary(k)
  {
  }

  /** Where the live keys first differ, renewing the two keys that differ shows it. */
  lemma {:induction false} OrderShows(algorithm: Algorithm, p: seq<SigningKey>, q: seq<SigningKey>, x: seq<SigningKey>,
                                      k: SigningKey, y: seq<SigningKey>, l: SigningKey, z: seq<SigningKey>, now: int)
    requires UniqueKids(p) && UniqueKids(q) && k.kid != l.kid
    requires Live(p, now) == x + [k] + y && Live(q, now) == x + [l] + z && l in y && k in z
    ensures Continues(algorithm, p, q, now, Renewal(k.kid, l.kid, now), now)
    ensures
      var more := Renewal(k.kid, l.kid, now);
      Jwks(Exec(true, algorithm, p, more), now) != Jwks(Exec(false, algorithm, q, more), now)
  {
    hide Exec, Live, Find, Adopt, Jwks, Continues, UniqueKids;
    var m := Material("", "", "", "");
    var k1, l1 := NewKey(algorithm, k.kid, 1, m, now), NewKey(algorithm, l.kid, 1, m, now);
    LiveMembers(q, now);
    assert l in x + [l] + z && k in x + [l] + z;
    FindUnique(q, k);
    FindUnique(q, l);
    RenewalContinues(algorithm, p, q, k, l, now);
    ExecRenewal(true, algorithm, p, k.kid, l.kid, now);
    ExecRenewal(false, algorithm, q, k.kid, l.kid, now);
    var p1, q1 := Adopt(true, p, k1, now), Adopt(false, q, k1, now);
    AdoptUnique(true, p, k1, now);
    AdoptUnique(false, q, k1, now);
    ReplacedLive(true, p, x, k, y, k1, now);
    var y1 := ReplacedBehind(true, p1, x, k1, y, l, l1, now);
    var z1 := ReplacedBehind(false, q, x, l, z, k, k1, now);
    ReplacedLive(false, q1, x, l, z1, l1, now);
    FrontsShow(x, k1, y1, l1, z1, now);
    AnswersFromLive(Adopt(true, p1, l1, now), now);
    AnswersFromLive(Adopt(false, q1, l1, now), now);
  }

  lemma {:induction false} LiveUnique(keys: seq<SigningKey>, now: int)
    requires UniqueKids(keys)
    ensures UniqueKids(Live(keys, now))
  {
    if keys == [] {
    } else {
      LiveUnique(keys[1..], now);
      LiveMembers(keys[1..], now);
      var rest := Live(keys[1..], now);
      forall j | 0 <= j < |rest|
        ensures rest[j].kid != keys[0].kid
      {
        assert rest[j] in keys[1..];
      }
    }
  }

  /** The common live keys with the added one at different places first differ at the nearer place. */
  lemma {:induction false} DisplacedShows(algorithm: Algorithm, p: seq<SigningKey>, q: seq<SigningKey>, key: SigningKey,
                                          now: int) returns (more: seq<Timed>)
    requires Alike(p, q, now) && Displaced(p, q, key, now)
    ensures
      var p', q' := Adopt(true, p, key, now), Adopt(false, q, key, now);
      && Continues(algorithm, p', q', now, more, now)
      && Jwks(Exec(true, algorithm, p', more), now) != Jwks(Exec(false, algorithm, q', more), now)
  {
    hide Exec, Live, Find, Put, Pruned, Jwks, Continues, UniqueKids, Place;
    var p', q' := Adopt(true, p, key, now), Adopt(false, q, key, now);
    var live, m, n := Live(q, now), Place(p, key.kid, now), Place(q, key.kid, now);
    AdoptUnique(true, p, key, now);
    AdoptUnique(false, q, key, now);
    LivePruned(Put(p, key), now);
    SameHolding(p, q, key.kid, now);
    LivePutPlace(p, key, now);
    LivePutPlace(q, key, now);
    NotLive(q, key, now);
    if m < n {
      var z := PlaceSplit(live, key, m, n);
      more := Renewal(key.kid, live[m].kid, now);
      OrderShows(algorithm, p', q', live[..m], key, live[m..], live[m], z, now);
    } else {
      var y := PlaceSplit(live, key, n, m);
      more := Renewal(live[n].kid, key.kid, now);
      OrderShows(algorithm, p', q', live[..n], live[n], y, key, live[n..], now);
    }
  }

  lemma {:induction false} PlaceSplit(s: seq<SigningKey>, x: SigningKey, m: nat, n: nat) returns (z: seq<SigningKey>)
    requires m < n <= |s|
    ensures s[..n] + [x] + s[n..] == s[..m] + [s[m]] + z && x in z && s[m] in s[m..]
  {
    z := s[m + 1..n] + [x] + s[n..];
    assert s[..n] == s[..m] + [s[m]] + s[m + 1..n];
    assert z[n - m - 1] == x;
    assert s[m..][0] == s[m];
  }

  /** A step of two stores that are alike. */
  lemma {:induction false} StepDecidesForever(algorithm: Algorithm, p: seq<SigningKey>, q: seq<SigningKey>, step: Timed)
    requires Alike(p, q, step.at)
    ensures
      var p', q' := Apply(true, algorithm, p, step.op, step.at), Apply(false, algorithm, q, step.op, step.at);
      && ((forall more, later :: Continues(algorithm, p', q', step.at, more, later) ==>
             SameAnswers(Exec(true, algorithm, p', more), Exec(false, algorithm, q', more), later))
          <==> !Displaces(algorithm, p, q, step))
      && ((forall more, later :: Continues(algorithm, p', q', step.at, more, later) ==>
             Jwks(Exec(true, algorithm, p', more), later) == Jwks(Exec(false, algorithm, q', more), later))
          <==> !Displaces(algorithm, p, q, step))
  {
    hide Exec, Apply, Jwks, CurrentKey, Undisplaced, Alike, Since, Clocked, Displaced, AddedKey;
    var p', q' := Apply(true, algorithm, p, step.op, step.at), Apply(false, algorithm, q, step.op, step.at);
    if Displaces(algorithm, p, q, step) {
      var key := AddedKey(algorithm, q, step.op, step.at).value;
      AdditionAdopts(algorithm, p, q, step);
      var more := DisplacedShows(algorithm, p, q, key, step.at);
      assert Continues(algorithm, p', q', step.at, more, step.at);
    } else {
      StepAlikeIff(algorithm, p, q, step);
      forall more, later | Continues(algorithm, p', q', step.at, more, later)
        ensures SameAnswers(Exec(true, algorithm, p', more), Exec(false, algorithm, q', more), later)
      {
        StaysAlike(algorithm, p', q', step.at, more, later);
        AlikeAnswers(Exec(true, algorithm, p', more), Exec(false, algorithm, q', more), later);
      }
    }
  }

  /** A step that adds a key has both stores adopt it. */
  lemma {:induction false} AdditionAdopts(algorithm: Algorithm, p: seq<SigningKey>, q: seq<SigningKey>, step: Timed)
    requires Alike(p, q, step.at) && AddedKey(algorithm, q, step.op, step.at).Some?
    ensures
      var key := AddedKey(algorithm, q, step.op, step.at).value;
      && Apply(true, algorithm, p, step.op, step.at) == Adopt(true, p, key, step.at)
      && Apply(false, algorithm, q, step.op, step.at) == Adopt(false, q, key, step.at)
  {
    hide Adopt, Shadows, UniqueKids, CurrentKey, Find, Live;
    SameUsable(p, q, step.at);
  }

  /**
   * Over runs: after any run that displaced no key, the next step leaves the pruning store and the one that never
   * prunes with the same answers at every later instant of every continuation that displaces none either, if and only
   * if it displaces none itself. The published list alone decides it.
   */
  lemma {:induction false} OrderDecidesForever(algorithm: Algorithm, steps: seq<Timed>, step: Timed)
    requires Clocked(steps, step.at) && Undisplaced(algorithm, [], [], steps)
    ensures
      var p, q := Exec(true, algorithm, [], steps), Exec(false, algorithm, [], steps);
      var p', q' := Apply(true, algorithm, p, step.op, step.at), Apply(false, algorithm, q, step.op, step.at);
      && ((forall more, later :: Continues(algorithm, p', q', step.at, more, later) ==>
             SameAnswers(Exec(true, algorithm, p', more), Exec(false, algorithm, q', more), later))
          <==> !Displaces(algorithm, p, q, step))
      && ((forall more, later :: Continues(algorithm, p', q', step.at, more, later) ==>
             Jwks(Exec(true, algorithm, p', more), later) == Jwks(Exec(false, algorithm, q', more), later))
          <==> !Displaces(algorithm, p, q, step))
  {
    hide Exec, Apply, Jwks, Undisplaced, Alike, Displaces, Continues, SameAnswers;
    PruningKeepsOrder(algorithm, steps, step.at);
    StepDecidesForever(algorithm, Exec(true, algorithm, [], steps), Exec(false, algorithm, [], steps), step);
  }

  lemma {:induction false} LiveSingle(k: SigningKey, now: int)
    ensures Live([k], now) == if k.expiresAt > now then [k] else []
  {
  }

  lemma {:induction false} PutNew(keys: seq<SigningKey>, key: SigningKey)
    requires Find(keys, key.kid).None?
    ensures Put(keys, key) == keys + [key]
  {
    if keys == [] {
    } else {
      PutNew(keys[1..], key);
      assert keys + [key] == [keys[0]] + (keys[1..] + [key]);
    }
  }

  lemma {:induction false} PutAt(a: seq<SigningKey>, d: SigningKey, b: seq<SigningKey>, key: SigningKey)
    requires d.kid == key.kid && forall k :: k in a ==> k.kid != key.kid
    ensures Put(a + [d] + b, key) == a + [key] + b
  {
    var q := a + [d] + b;
    if a == [] {
      assert q[0] == d && q[1..] == b;
    } else {
      assert q[0] == a[0] && q[1..] == a[1..] + [d] + b;
      PutAt(a[1..], d, b, key);
      assert a + [key] + b == [a[0]] + (a[1..] + [key] + b);
    }
  }

  /** With equally new keys it happens: a is added and expires, b is added, a is added again. */
  lemma ReaddedCurrentDiffers()
    ensures
      var m := Material("", "", "", "");
      var steps := [Timed(Add("a", 5, m), 0), Timed(Add("b", 90, m), 10), Timed(Add("a", 50, m), 10)];
      && Clocked(steps, 10)
      && CurrentKey(Exec(true, EdDSA, [], steps), 10) != CurrentKey(Exec(false, EdDSA, [], steps), 10)
  {
    hide Exec, Apply, Clocked, CurrentKey, Find, Live, UniqueKids, Usable, Alike, HoldsLive;
    var m := Material("", "", "", "");
    var s0, s1, s2 := Timed(Add("a", 5, m), 0), Timed(Add("b", 90, m), 10), Timed(Add("a", 50, m), 10);
    var a, a', b := NewKey(EdDSA, "a", 5, m, 0), NewKey(EdDSA, "a", 50, m, 10), NewKey(EdDSA, "b", 90, m, 10);
    TwoAdds(m);
    OnlyKey(a, b, 10);
    ExecNext(true, [s0, s1], s2);
    ExecNext(false, [s0, s1], s2);
    AddIsAdopt(true, "a", 50, m, 10);
    AddIsAdopt(false, "a", 50, m, 10);
    ClockedThree(s0, s1, s2, 10);
    assert [s0, s1] + [s2] == [s0, s1, s2] && [] + [a] + [b] == [a, b];
    EmptyAnswers(10);
    TwoAlike(a, b, 10);
    PrunedPlaces([b], [], a, [b], 10);
    AddedCurrentIff([b], [a, b], a', 10, 10);
    CurrentLater([b], 10, 10);
    CurrentLater([], 10, 10);
    CurrentOfLive([b], 10);
    NewestSingle(b, 10);
    UsableNow(a', b);
  }

  lemma {:induction false} ClockedThree(s0: Timed, s1: Timed, s2: Timed, now: int)
    requires s0.at <= s1.at <= s2.at <= now
    ensures Clocked([s0, s1, s2], now)
  {
  }

  lemma {:induction false} UsableNow(a: SigningKey, b: SigningKey)
    requires a.status == b.status == Active && a.expiresAt > 10 && b.expiresAt > 10
    ensures Usable(a, 10) && Usable(b, 10)
  {
  }

  lemma {:induction false} AddIsAdopt(prunes: bool, kid: string, ttlMs: int, m: Material, now: int)
    ensures forall keys :: Apply(prunes, EdDSA, keys, Add(kid, ttlMs, m), now)
                        == Adopt(prunes, keys, NewKey(EdDSA, kid, ttlMs, m, now), now)
  {
  }

  /** The two stores after the first two additions. */
  lemma {:induction false} TwoAdds(m: Material)
    ensures
      var s0, s1 := Timed(Add("a", 5, m), 0), Timed(Add("b", 90, m), 10);
      && Exec(true, EdDSA, [], [s0, s1]) == [NewKey(EdDSA, "b", 90, m, 10)]
      && Exec(false, EdDSA, [], [s0, s1]) == [NewKey(EdDSA, "a", 5, m, 0), NewKey(EdDSA, "b", 90, m, 10)]
  {
    hide Find, Live, UniqueKids, Put, Pruned;
    var s0, s1 := Timed(Add("a", 5, m), 0), Timed(Add("b", 90, m), 10);
    var a, b := NewKey(EdDSA, "a", 5, m, 0), NewKey(EdDSA, "b", 90, m, 10);
    OnlyKey(a, b, 10);
    ExecNext(true, [s0], s1);
    ExecNext(false, [s0], s1);
    ExecNext(true, [], s0);
    ExecNext(false, [], s0);
    assert [s0] + [s1] == [s0, s1] && [] + [s0] == [s0];
    PrunedLive(a, 0);
  }

  lemma {:induction false} PrunedLive(k: SigningKey, now: int)
    requires k.expiresAt >= now
    ensures Pruned([k], now) == [k]
  {
    assert Pruned([k][1..], now) == [];
  }

  lemma {:induction false} ExecNext(prunes: bool, steps: seq<Timed>, step: Timed)
    ensures Exec(prunes, EdDSA, [], steps + [step])
         == Apply(prunes, EdDSA, Exec(prunes, EdDSA, [], steps), step.op, step.at)
  {
    assert (steps + [step])[..|steps|] == steps;
  }

  /** Adding a live key to an expired one: pruning leaves the live one alone. */
  lemma {:induction false} OnlyKey(d: SigningKey, k: SigningKey, now: int)
    requires d.kid != k.kid && d.expiresAt < now < k.expiresAt
    ensures Put([], d) == [d] && Put([d], k) == [d, k] && Pruned([d, k], now) == [k]
    ensures Find([k], d.kid) == None && Live([k], now) == Live([d, k], now) && UniqueKids([d, k])
  {
    assert [d][1..] == [] && [k][1..] == [] && [d, k][1..] == [k];
    assert Pruned([], now) == [] && Pruned([k], now) == [k] + [];
    assert Live([], now) == [] && Live([k], now) == [k] + [];
    assert Put([d][1..], k) == [k];
  }

  lemma {:induction false} TwoAlike(d: SigningKey, k: SigningKey, now: int)
    requires d.kid != k.kid && d.expiresAt < now < k.expiresAt
    ensures Alike([k], [d, k], now)
  {
    hide Live;
    OnlyKey(d, k, now);
    assert [k][1..] == [] && [d, k][1..] == [k];
    forall kid
      ensures Find([k], kid) == Find([d, k], kid) || PrunedAway([k], [d, k], kid, now)
    {
    }
  }

  lemma {:induction false} EmptyAnswers(now: int)
    ensures CurrentKey([], now) == None
  {
  }

  // ---------------------------------------------------------------------------
  // Revocation is final
  // ---------------------------------------------------------------------------

  /** The kid is absent or revoked. */
  ghost predicate Gone(keys: seq<SigningKey>, kid: string) {
    Find(keys, kid).Some? ==> Find(keys, kid).value.status == Revoked
  }

  /** The operation cannot add the kid. */
  ghost predicate LeavesOut(op: Op, kid: string) {
    match op
    case Add(k, _, _) => k != kid
    case Restore(key, _) => key.kid != kid
    case UseCurrent(freshKid, _) => freshKid != kid
    case _ => true
  }

  lemma {:induction false} AdoptGone(prunes: bool, keys: seq<SigningKey>, key: SigningKey, now: int, kid: string)
    requires UniqueKids(keys) && Gone(keys, kid) && key.kid != kid
    ensures Gone(Adopt(prunes, keys, key, now), kid)
  {
    hide Put, Pruned, Find, UniqueKids;
    PutFind(keys, key, kid);
    PutUnique(keys, key);
    PrunedFind(Put(keys, key), kid, now);
  }

  lemma {:induction false} ApplyGone(prunes: bool, algorithm: Algorithm, keys: seq<SigningKey>, op: Op, now: int,
                                     kid: string)
    requires UniqueKids(keys) && Gone(keys, kid) && LeavesOut(op, kid)
    ensures Gone(Apply(prunes, algorithm, keys, op, now), kid)
  {
    hide Adopt, Put, UniqueKids, CurrentKey;
    match op
    case Add(k, ttlMs, material) => AdoptGone(prunes, keys, NewKey(algorithm, k, ttlMs, material, now), now, kid);
    case Restore(key, materialOk) => AdoptGone(prunes, keys, Restored(key), now, kid);
    case UseCurrent(freshKid, material) =>
      AdoptGone(prunes, keys, NewKey(algorithm, freshKid, DEFAULT_TTL_MS, material, now), now, kid);
    case Clear =>
    case Retire(_) => StatusChange(prunes, keys, op, algorithm, now, kid);
    case Revoke(_) => StatusChange(prunes, keys, op, algorithm, now, kid);
  }

  lemma {:induction false} ExecGone(prunes: bool, algorithm: Algorithm, start: seq<SigningKey>, steps: seq<Timed>,
                                    kid: string)
    requires UniqueKids(start) && Gone(start, kid)
    requires forall i :: 0 <= i < |steps| ==> LeavesOut(steps[i].op, kid)
    ensures UniqueKids(Exec(prunes, algorithm, start, steps)) && Gone(Exec(prunes, algorithm, start, steps), kid)
  {
    hide Gone, Apply, UniqueKids;
    if steps == [] {
    } else {
      var init, last := steps[..|steps| - 1], steps[|steps| - 1];
      ExecGone(prunes, algorithm, start, init, kid);
      var keys := Exec(prunes, algorithm, start, init);
      ApplyGone(prunes, algorithm, keys, last.op, last.at, kid);
      ApplyUnique(prunes, algorithm, keys, last.op, last.at);
    }
  }

  /**
   * Once revoked, a key never again verifies, signs or is published under its kid, in any run that does not add the
   * same kid again.
   */
  lemma {:induction false} RevokedStaysRevoked(prunes: bool, algorithm: Algorithm, start: seq<SigningKey>,
                                               steps: seq<Timed>, kid: string, at: int, now: int)
    requires UniqueKids(start)
    requires forall i :: 0 <= i < |steps| ==> LeavesOut(steps[i].op, kid)
    ensures
      var keys := Exec(prunes, algorithm, Apply(prunes, algorithm, start, Revoke(kid), at), steps);
      && ByKid(keys, kid, now).None?
      && (CurrentKey(keys, now).Some? ==> CurrentKey(keys, now).value.kid != kid)
      && (forall k :: k in keys && Published(k, now) ==> Primary(k).kid != kid)
  {
    hide Apply, Exec, Find, CurrentKey, UniqueKids;
    var revoked := Apply(prunes, algorithm, start, Revoke(kid), at);
    StatusChange(prunes, start, Revoke(kid), algorithm, at, kid);
    ApplyUnique(prunes, algorithm, start, Revoke(kid), at);
    ExecGone(prunes, algorithm, revoked, steps, kid);
    var keys := Exec(prunes, algorithm, revoked, steps);
    CurrentIsNewest(keys, now);
    forall k | k in keys && k.status != Revoked
      ensures k.kid != kid
    {
      FindUnique(keys, k);
    }
  }
}
