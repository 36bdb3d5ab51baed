/**
 * The published key list (packages/crypto/src/jwt.ts) in the hands of somebody who has nothing else: which entries come
 * under which kid, and that they verify exactly what the store's own keys verify.
 */
module PublishedKeys {
  import opened Wrappers
  import opened KeyStore
  import opened Jws

  function Lookup(list: seq<Jwk>, kid: string): (r: Option<Jwk>)
    ensures r.Some? ==> r.value in list && r.value.kid == kid
    ensures r.None? ==> forall e :: e in list ==> e.kid != kid
  {
    if list == [] then None
    else if list[0].kid == kid then Some(list[0])
    else Lookup(list[1..], kid)
  }

  /** The key rebuilt from the entries under a kid and, for a hybrid key, under that kid + "-pqc". */
  function Rebuilt(list: seq<Jwk>, kid: string): Option<SigningKey> {
    match (Lookup(list, kid), Lookup(list, kid + "-pqc"))
    case (Some(ClassicalJwk(_, RS256, pub)), Some(PqJwk(_, MlDsa65, pq))) => Some(PublicKey(kid, HybridRS256, pub, pq))
    case (Some(ClassicalJwk(_, ES256, pub)), Some(PqJwk(_, MlDsa65, pq))) => Some(PublicKey(kid, HybridES256, pub, pq))
    case (Some(ClassicalJwk(_, alg, pub)), _) => Some(PublicKey(kid, alg, pub, ""))
    case (Some(PqJwk(_, alg, pq)), _) => Some(PublicKey(kid, alg, "", pq))
    case (None, _) => None
  }

  function PublicKey(kid: string, algorithm: Algorithm, publicKey: string, pqPublicKey: string): SigningKey {
    SigningKey(kid, algorithm, Material(publicKey, "", pqPublicKey, ""), 0, VerifyOnly, None, None, None, 0)
  }

  // ---------------------------------------------------------------------------
  // Which entries come under which kid
  // ---------------------------------------------------------------------------

  /** A published key's kid is that of another published hybrid key's second entry. */
  ghost predicate Clash(keys: seq<SigningKey>, now: int, h: SigningKey, k: SigningKey) {
    && h in keys && Published(h, now) && IsHybrid(h.algorithm)
    && k in keys && Published(k, now) && k.kid == h.kid + "-pqc"
  }

  ghost predicate DistinctKids(list: seq<Jwk>) {
    forall i, j :: 0 <= i < j < |list| ==> list[i].kid != list[j].kid
  }

  /** Who owns an entry. */
  lemma {:induction false} Owner(keys: seq<SigningKey>, now: int, e: Jwk) returns (k: SigningKey)
    requires e in Jwks(keys, now)
    ensures k in keys && Published(k, now) && e in Entries(k)
    ensures e.kid == k.kid || (IsHybrid(k.algorithm) && e.kid == k.kid + "-pqc")
  {
    JwksMembers(keys, now);
    k :| k in keys && Published(k, now) && e in Entries(k);
    EntryKids(k, e);
  }

  lemma {:induction false} EntryKids(k: SigningKey, e: Jwk)
    requires e in Entries(k)
    ensures e.kid == k.kid || (IsHybrid(k.algorithm) && e.kid == k.kid + "-pqc")
  {
  }

  lemma {:induction false} SuffixNames(a: string, b: string)
    ensures a != a + "-pqc"
    ensures a + "-pqc" == b + "-pqc" ==> a == b
  {
    assert |a + "-pqc"| == |a| + 4;
    if a + "-pqc" == b + "-pqc" {
      assert |a| == |b| && (a + "-pqc")[..|a|] == a && (b + "-pqc")[..|b|] == b;
    }
  }

  /** Entries of different keys have the same kid only in a clash. */
  lemma {:induction false} SameKidClashes(keys: seq<SigningKey>, now: int, k: SigningKey, l: SigningKey, e: Jwk, f: Jwk)
    requires k in keys && Published(k, now) && e in Entries(k) && l in keys && Published(l, now) && f in Entries(l)
    requires k.kid != l.kid && e.kid == f.kid
    ensures Clash(keys, now, k, l) || Clash(keys, now, l, k)
  {
    hide Published, Entries;
    EntryKids(k, e);
    EntryKids(l, f);
    SuffixNames(k.kid, l.kid);
  }

  /** A clash puts a kid into the list twice. */
  lemma {:induction false} ClashRepeats(keys: seq<SigningKey>, now: int, h: SigningKey, k: SigningKey)
    requires UniqueKids(keys) && Clash(keys, now, h, k)
    ensures !DistinctKids(Jwks(keys, now))
  {
    SuffixNames(h.kid, k.kid);
    var first, rest := if Published(keys[0], now) then Entries(keys[0]) else [], Jwks(keys[1..], now);
    assert Jwks(keys, now) == first + rest;
    if h == keys[0] || k == keys[0] {
      var l := if h == keys[0] then k else h;
      assert l in keys[1..];
      var e: Jwk := if h == keys[0] then Entries(h)[1] else Entries(k)[0];
      var f: Jwk := if h == keys[0] then Entries(k)[0] else Entries(h)[1];
      JwksMembers(keys[1..], now);
      assert e in first && f in Entries(l) && f in rest;
      SharedKid(first, rest, e, f);
    } else {
      ClashRepeats(keys[1..], now, h, k);
      if DistinctKids(first + rest) { DistinctParts(first, rest); }
    }
  }

  lemma {:induction false} SharedKid(a: seq<Jwk>, b: seq<Jwk>, e: Jwk, f: Jwk)
    requires e in a && f in b && e.kid == f.kid
    ensures !DistinctKids(a + b)
  {
    var i :| 0 <= i < |a| && a[i] == e;
    var j :| 0 <= j < |b| && b[j] == f;
    assert (a + b)[i] == e && (a + b)[|a| + j] == f;
  }

  lemma {:induction false} DistinctParts(a: seq<Jwk>, b: seq<Jwk>)
    requires DistinctKids(a + b)
    ensures DistinctKids(b)
  {
    forall i, j | 0 <= i < j < |b|
      ensures b[i].kid != b[j].kid
    {
      assert (a + b)[|a| + i] == b[i] && (a + b)[|a| + j] == b[j];
    }
  }

  /** The published kids are distinct exactly when no published key is named like a hybrid key's second entry. */
  lemma {:induction false} DistinctKidsIff(keys: seq<SigningKey>, now: int)
    requires UniqueKids(keys)
    ensures DistinctKids(Jwks(keys, now)) <==> !exists h, k :: Clash(keys, now, h, k)
  {
    if h, k :| Clash(keys, now, h, k) {
      ClashRepeats(keys, now, h, k);
    } else {
      NoClashDistinct(keys, now);
    }
  }

  lemma {:induction false} NoClashDistinct(keys: seq<SigningKey>, now: int)
    requires UniqueKids(keys) && forall h, k :: !Clash(keys, now, h, k)
    ensures DistinctKids(Jwks(keys, now))
  {
    if keys == [] {
    } else {
      forall h, k
        ensures !Clash(keys[1..], now, h, k)
      {
        assert !Clash(keys, now, h, k);
      }
      NoClashDistinct(keys[1..], now);
      var k0 := keys[0];
      if Published(k0, now) {
        var first, rest := Entries(k0), Jwks(keys[1..], now);
        forall j | 0 <= j < |rest|
          ensures forall i :: 0 <= i < |first| ==> first[i].kid != rest[j].kid
        {
          var l := Owner(keys[1..], now, rest[j]);
          forall i | 0 <= i < |first|
            ensures first[i].kid != rest[j].kid
          {
            if first[i].kid == rest[j].kid {
              SameKidClashes(keys, now, k0, l, first[i], rest[j]);
              assert false;
            }
          }
        }
        SuffixNames(k0.kid, k0.kid);
        Distinct(first, rest);
      }
    }
  }

  lemma {:induction false} Distinct(a: seq<Jwk>, b: seq<Jwk>)
    requires |a| == 1 || (|a| == 2 && a[0].kid != a[1].kid)
    requires DistinctKids(b) && forall i, j :: 0 <= i < |a| && 0 <= j < |b| ==> a[i].kid != b[j].kid
    ensures DistinctKids(a + b)
  {
  }

  // ---------------------------------------------------------------------------
  // Verifying with the list alone
  // ---------------------------------------------------------------------------

  /** A published entry is found under its kid where kids are distinct. */
  lemma {:induction false} Finds(list: seq<Jwk>, e: Jwk)
    requires DistinctKids(list) && e in list
    ensures Lookup(list, e.kid) == Some(e)
  {
    var f := Lookup(list, e.kid).value;
    var i :| 0 <= i < |list| && list[i] == e;
    var j :| 0 <= j < |list| && list[j] == f;
    assert i == j;
  }

  /** From a list with distinct kids the public half of every published key is rebuilt. */
  lemma {:induction false} RebuildsKey(keys: seq<SigningKey>, k: SigningKey, now: int)
    requires UniqueKids(keys) && k in keys && Published(k, now) && IsManual(k.algorithm)
    requires DistinctKids(Jwks(keys, now))
    ensures
      var r := Rebuilt(Jwks(keys, now), k.kid);
      && r.Some? && r.value.kid == k.kid && r.value.algorithm == k.algorithm
      && (!IsPurePq(k.algorithm) ==> r.value.material.publicKey == k.material.publicKey)
      && (k.algorithm != EdDSA ==> r.value.material.pqPublicKey == k.material.pqPublicKey)
  {
    hide DistinctKids, Jwks, Lookup, UniqueKids, Published;
    JwksMembers(keys, now);
    forall e | e in Entries(k)
      ensures Lookup(Jwks(keys, now), e.kid) == Some(e)
    {
      Finds(Jwks(keys, now), e);
    }
    assert Entries(k)[0] in Entries(k);
    if IsHybrid(k.algorithm) { assert Entries(k)[1] in Entries(k); }
  }

  /** Verifying needs a key's kid, algorithm and public parts only. */
  lemma {:induction false} PublicHalfSuffices(c: Codec, s: Scheme, token: string, k: SigningKey, p: SigningKey,
                                              vo: VerifyOptions, now: int)
    requires IsManual(k.algorithm) && p.kid == k.kid && p.algorithm == k.algorithm
    requires !IsPurePq(k.algorithm) ==> p.material.publicKey == k.material.publicKey
    requires k.algorithm != EdDSA ==> p.material.pqPublicKey == k.material.pqPublicKey
    ensures VerifyToken(c, s, token, p, vo, now) == VerifyToken(c, s, token, k, vo, now)
  {
    hide Split, CheckClaims, DerSignature.JoseToDer;
  }

  /** Whoever has only a list with distinct kids gives every string at all the answer the store's own key gives. */
  lemma {:induction false} ListVerifiesTheSame(c: Codec, s: Scheme, keys: seq<SigningKey>, k: SigningKey, at: int,
                                               token: string, vo: VerifyOptions, now: int)
    requires UniqueKids(keys) && k in keys && Published(k, at) && IsManual(k.algorithm)
    requires DistinctKids(Jwks(keys, at))
    ensures
      var r := Rebuilt(Jwks(keys, at), k.kid);
      && r.Some? && r.value.algorithm == k.algorithm
      && VerifyToken(c, s, token, r.value, vo, now) == VerifyToken(c, s, token, k, vo, now)
  {
    hide VerifyToken, Rebuilt, Jwks, DistinctKids, UniqueKids, Published, IsPurePq, IsManual;
    RebuildsKey(keys, k, at);
    PublicHalfSuffices(c, s, token, k, Rebuilt(Jwks(keys, at), k.kid).value, vo, now);
  }

  /** So every token a published key signs verifies from the list, up to the claim checks, with its claims. */
  lemma {:induction false} SignedVerifiesFromList(c: Codec, s: Scheme, keys: seq<SigningKey>, k: SigningKey, at: int,
                                                  payload: Claims, so: SignOptions, signedAt: int, vo: VerifyOptions,
                                                  now: int)
    requires LawfulCodec(c) && MatchingKey(s, k) && IsManual(k.algorithm)
    requires UniqueKids(keys) && k in keys && Published(k, at) && DistinctKids(Jwks(keys, at))
    ensures
      var token, claims := SignToken(c, s, payload, k, so, signedAt), ClaimsWithTime(payload, so, signedAt);
      var r := Rebuilt(Jwks(keys, at), k.kid);
      && token.Ok? && r.Some? && r.value.algorithm == k.algorithm
      && VerifyToken(c, s, token.value, r.value, vo, now) ==
         match CheckClaims(claims, vo, now) case Ok(_) => Ok(claims) case Err(e) => Err(e)
  {
    hide VerifyToken, SignToken, Rebuilt, Jwks, DistinctKids, UniqueKids, LawfulCodec, MatchingKey, Published;
    VerifyOfSign(c, s, payload, k, so, signedAt, vo, now);
    ListVerifiesTheSame(c, s, keys, k, at, SignToken(c, s, payload, k, so, signedAt).value, vo, now);
  }
}
