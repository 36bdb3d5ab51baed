/**
 * SRP-6a (packages/crypto/src/srp.ts): square-and-multiply exponentiation, the two sides'
 * shared secrets, and exactly when they coincide.
 *
 * Big integers are Dafny integers. SHA-256 and the byte layouts it is fed are the fields of
 * Hashes; hex strings are identified with the numbers they spell.
 */
module Srp {
  import opened Wrappers
  import opened ModArith

  /** The group: any modulus above 1 and any positive generator (the source fixes 2). */
  datatype Group = Group(N: int, g: int)

  ghost predicate ValidGroup(grp: Group) {
    grp.N > 1 && grp.g > 0
  }

  /** u = H(A || B), x = H(N || g || salt || H(user:password)), K = H(S), M1 and M2. */
  datatype Hashes = Hashes(
    scramble: (int, int) -> nat,
    privateKey: (string, string, string) -> nat,
    sessionKey: int -> string,
    clientProof: (string, int, int, string) -> string,
    serverProof: (int, string, string) -> string)

  datatype SrpError = ZeroA | ZeroU | ZeroB

  datatype ServerProof = ServerProof(M2: string, sessionKey: string)

  datatype ClientProof = ClientProof(M1: string, sessionKey: string)

  // ---------------------------------------------------------------------------
  // Modular exponentiation
  // ---------------------------------------------------------------------------

  /** JavaScript's `%`: the remainder has the dividend's sign. */
  function JsRem(a: int, m: int): int
    requires m != 0
  {
    if a >= 0 then a % m else -((-a) % m)
  }

  /** `((a % m) + m) % m` is the mathematical remainder, also for negative a. */
  lemma {:induction false} NormalizedRemainder(a: int, m: int)
    requires m >= 1
    ensures JsRem(JsRem(a, m) + m, m) == a % m
  {
    var r := JsRem(a, m);
    assert -m < r < m;
    assert JsRem(r + m, m) == (r + m) % m;
    if a >= 0 {
      AddOnce(r, m);
      SmallRemainder(r, m);
    } else {
      NegativeRemainder(a, m);
    }
  }

  lemma {:induction false} NegativeRemainder(a: int, m: int)
    requires m >= 1
    ensures (m - (-a) % m) % m == a % m
  {
    var q, r := (-a) / m, (-a) % m;
    NegatedDivision(a, q, r, m);
    CongruentBy(a, m - r, -q - 1, m);
  }

  lemma {:induction false} NegatedDivision(a: int, q: int, r: int, m: int)
    requires -a == q * m + r
    ensures a == (m - r) + (-q - 1) * m
  {
    MulDifference(-q, 1, m);
    MulDifference(0, q, m);
  }

  /** base^exp mod mod. A non-positive exponent skips the loop and yields 1, unreduced. */
  method ModPow(base0: int, exp0: int, mod: int) returns (result: int)
    requires mod >= 1
    ensures result == if exp0 <= 0 then 1 else Pow(base0, exp0) % mod
  {
    result := 1;
    NormalizedRemainder(base0, mod);
    var base := JsRem(JsRem(base0, mod) + mod, mod);
    var exp := exp0;
    ghost var target := if exp0 >= 0 then Pow(base0, exp0) else 1;
    if exp0 >= 0 { StartLoop(base0, exp0, mod); }
    while exp > 0
      invariant base >= 0 && result >= 0
      invariant exp0 <= 0 ==> exp == exp0 && result == 1
      invariant exp0 > 0 ==> exp >= 0 && LoopInv(result, base, exp, target, mod)
      invariant exp0 > 0 && exp == 0 ==> result < mod
    {
      SquareStep(result, base, exp, target, mod);
      if exp % 2 == 1 {
        result := (result * base) % mod;
      }
      exp := exp / 2;
      base := (base * base) % mod;
    }
    if exp0 > 0 { EndLoop(result, base, target, mod); }
  }

  lemma {:induction false} EndLoop(result: int, base: int, target: int, m: int)
    requires m >= 1 && 0 <= result < m && LoopInv(result, base, 0, target, m)
    ensures result == target % m
  {
    SmallRemainder(result, m);
  }

  lemma {:induction false} SmallRemainder(r: int, m: int)
    requires 0 <= r < m
    ensures r % m == r
  {
    DivModUnique(r, 0, r, m);
  }

  /** What the loop keeps: result * base^exp is the wanted power, modulo m. */
  ghost predicate LoopInv(result: int, base: int, exp: nat, target: int, m: int)
    requires m >= 1
  {
    Congruent(result * Pow(base, exp), target, m)
  }

  lemma {:induction false} StartLoop(base0: int, exp0: nat, m: int)
    requires m >= 1
    ensures LoopInv(1, base0 % m, exp0, Pow(base0, exp0), m)
  {
    ModSelf(base0, m);
    CongruentPow(base0 % m, base0, exp0, m);
  }

  /** One round of square-and-multiply keeps the invariant. */
  lemma {:induction false} SquareStep(result: int, base: int, exp: nat, target: int, m: int)
    requires m >= 1 && exp > 0 && LoopInv(result, base, exp, target, m)
    ensures LoopInv(if exp % 2 == 1 then (result * base) % m else result, (base * base) % m, exp / 2, target, m)
  {
    var h := exp / 2;
    var result' := if exp % 2 == 1 then result * base else result;
    assert result' * Pow(base * base, h) == result * Pow(base, exp) by {
      PowOfProduct(base, base, h);
      PowAdd(base, h, h);
      if exp % 2 == 1 {
        assert exp == 1 + (h + h);
        MulAssoc(result, base, Pow(base, h + h));
      }
    }
    ModSelf(result', m);
    ModSelf(base * base, m);
    CongruentPow((base * base) % m, base * base, h, m);
    CongruentMul(if exp % 2 == 1 then result' % m else result', result',
                 Pow((base * base) % m, h), Pow(base * base, h), m);
  }

  // ---------------------------------------------------------------------------
  // The two secrets
  // ---------------------------------------------------------------------------

  /** (A * v^u)^b mod N */
  function ServerSecret(grp: Group, A: int, v: int, u: nat, b: nat): int
    requires grp.N >= 1
  {
    Pow(A * Pow(v, u), b) % grp.N
  }

  /** (B - u * g^x)^(a + u * x) mod N: the source subtracts u * g^x where RFC 5054 has k * g^x. */
  function ClientSecret(grp: Group, a: nat, x: nat, u: nat, B: int): int
    requires grp.N >= 1
  {
    Pow(B - u * Pow(grp.g, x), a + u * x) % grp.N
  }

  method GenerateVerifier(grp: Group, h: Hashes, username: string, password: string, salt: string)
    returns (v: int)
    requires ValidGroup(grp)
    ensures v == Pow(grp.g, h.privateKey(username, password, salt)) % grp.N
  {
    v := ModPow(grp.g, h.privateKey(username, password, salt), grp.N);
  }

  /** The public value the server sends is g * g^b: no verifier goes into it. */
  method GenerateServerChallenge(grp: Group, b: nat) returns (B: int)
    requires ValidGroup(grp)
    ensures B == Pow(grp.g, b + 1) % grp.N
  {
    var p := ModPow(grp.g, b, grp.N);
    B := (grp.g * p) % grp.N;
    ModSelf(Pow(grp.g, b), grp.N);
    CongruentMul(grp.g, grp.g, p, Pow(grp.g, b), grp.N);
  }

  // ---------------------------------------------------------------------------
  // The exchange
  // ---------------------------------------------------------------------------

  /** What the server answers to a client value A, given the stored verifier v and its secret (b, B). */
  function ServerResponse(grp: Group, h: Hashes, A: nat, v: nat, b: nat, B: nat, salt: string)
    : Result<ServerProof, SrpError>
    requires ValidGroup(grp)
  {
    var u := h.scramble(A, B);
    if A % grp.N == 0 then Err(ZeroA)
    else if u == 0 then Err(ZeroU)
    else
      var K := h.sessionKey(ServerSecret(grp, A, v, u, b));
      Ok(ServerProof(h.serverProof(A, h.clientProof(salt, A, B, K), K), K))
  }

  /** What the client derives from the server's B. The client does not test u for zero. */
  function ClientResponse(grp: Group, h: Hashes, a: nat, A: int, username: string, password: string,
                          salt: string, B: nat): Result<ClientProof, SrpError>
    requires ValidGroup(grp)
  {
    if B % grp.N == 0 then Err(ZeroB)
    else
      var x := h.privateKey(username, password, salt);
      var K := h.sessionKey(ClientSecret(grp, a, x, h.scramble(A, B), B));
      Ok(ClientProof(h.clientProof(salt, A, B, K), K))
  }

  method ProcessClientChallenge(grp: Group, h: Hashes, A: nat, v: nat, b: nat, B: nat, salt: string)
    returns (r: Result<ServerProof, SrpError>)
    requires ValidGroup(grp)
    ensures r == ServerResponse(grp, h, A, v, b, B, salt)
    ensures r == Err(ZeroA) <==> A % grp.N == 0
    ensures r == Err(ZeroU) <==> A % grp.N != 0 && h.scramble(A, B) == 0
    ensures r.Ok? <==> A % grp.N != 0 && h.scramble(A, B) != 0
  {
    if A % grp.N == 0 { return Err(ZeroA); }
    var u := h.scramble(A, B);
    if u == 0 { return Err(ZeroU); }
    var vu := ModPow(v, u, grp.N);
    var S := ModPow((A * vu) % grp.N, b, grp.N);
    ServerSecretComputed(grp, A, v, u, b, vu, S);
    var K := h.sessionKey(S);
    var M1 := h.clientProof(salt, A, B, K);
    r := Ok(ServerProof(h.serverProof(A, M1, K), K));
  }

  lemma {:induction false} ServerSecretComputed(grp: Group, A: int, v: int, u: nat, b: nat, vu: int, S: int)
    requires ValidGroup(grp)
    requires u > 0 && vu == Pow(v, u) % grp.N
    requires S == if b <= 0 then 1 else Pow((A * vu) % grp.N, b) % grp.N
    ensures S == ServerSecret(grp, A, v, u, b)
  {
    var N := grp.N;
    SmallRemainder(1, N);
    ModSelf(Pow(v, u), N);
    CongruentMul(A, A, vu, Pow(v, u), N);
    ModSelf(A * vu, N);
    CongruentPow((A * vu) % N, A * Pow(v, u), b, N);
  }

  /** The client's side of a session; deriving the key stores it here. */
  class ClientSession {
    const a: nat
    const A: int
    var sessionKey: string

    constructor (a: nat, A: int)
      ensures this.a == a && this.A == A && sessionKey == ""
    {
      this.a, this.A, sessionKey := a, A, "";
    }

    method DeriveKey(grp: Group, h: Hashes, username: string, password: string, salt: string, B: nat)
      returns (r: Result<ClientProof, SrpError>)
      requires ValidGroup(grp)
      modifies this`sessionKey
      ensures r == ClientResponse(grp, h, a, A, username, password, salt, B)
      ensures r == Err(ZeroB) <==> B % grp.N == 0
      ensures r.Ok? <==> B % grp.N != 0
      ensures sessionKey == if r.Ok? then r.value.sessionKey else old(sessionKey)
    {
      if B % grp.N == 0 { return Err(ZeroB); }
      var u := h.scramble(A, B);
      var x := h.privateKey(username, password, salt);
      var gx := ModPow(grp.g, x, grp.N);
      MulNonNegative(u, x);
      var S := ModPow(B - (gx * u) % grp.N, a + u * x, grp.N);
      ClientSecretComputed(grp, a, x, u, B, gx, S);
      var K := h.sessionKey(S);
      sessionKey := K;
      r := Ok(ClientProof(h.clientProof(salt, A, B, K), K));
    }
  }

  method InitiateClient(grp: Group, a: nat) returns (session: ClientSession)
    requires ValidGroup(grp)
    ensures fresh(session) && session.a == a && session.A == Pow(grp.g, a) % grp.N && session.sessionKey == ""
  {
    var A := ModPow(grp.g, a, grp.N);
    SmallRemainder(1, grp.N);
    session := new ClientSession(a, A);
  }

  lemma {:induction false} MulNonNegative(u: nat, x: nat)
    ensures u * x >= 0
  {
  }

  lemma {:induction false} ClientSecretComputed(grp: Group, a: nat, x: nat, u: nat, B: int, gx: int, S: int)
    requires ValidGroup(grp)
    requires gx == if x <= 0 then 1 else Pow(grp.g, x) % grp.N
    requires u * x >= 0
    requires S == if a + u * x <= 0 then 1 else Pow(B - (gx * u) % grp.N, a + u * x) % grp.N
    ensures S == ClientSecret(grp, a, x, u, B)
  {
    var N := grp.N;
    SmallRemainder(1, N);
    ModSelf(Pow(grp.g, x), N);
    CongruentMul(gx, Pow(grp.g, x), u, u, N);
    ModSelf(gx * u, N);
    CongruentSub(B, B, (gx * u) % N, u * Pow(grp.g, x), N);
    CongruentPow(B - (gx * u) % N, B - u * Pow(grp.g, x), a + u * x, N);
  }

  // ---------------------------------------------------------------------------
  // Agreement
  // ---------------------------------------------------------------------------

  /** The form of B for which the client's subtraction leaves g^b. */
  ghost predicate FittingB(grp: Group, B: int, b: nat, u: nat, x: nat)
    requires grp.N >= 1
  {
    Congruent(B, Pow(grp.g, b) + u * Pow(grp.g, x), grp.N)
  }

  /** The server's secret is g^(b * (a + u * x)) mod N for every honest A and verifier. */
  lemma {:induction false} ServerSecretValue(grp: Group, A: int, v: int, a: nat, x: nat, u: nat, b: nat)
    requires ValidGroup(grp)
    requires Congruent(A, Pow(grp.g, a), grp.N) && Congruent(v, Pow(grp.g, x), grp.N)
    ensures b * (a + u * x) >= 0
    ensures ServerSecret(grp, A, v, u, b) == Pow(grp.g, b * (a + u * x)) % grp.N
  {
    var g, N := grp.g, grp.N;
    CongruentPow(v, Pow(g, x), u, N);
    PowMul(g, x, u);
    assert x * u == u * x;
    CongruentMul(A, Pow(g, a), Pow(v, u), Pow(g, u * x), N);
    PowAdd(g, a, u * x);
    CongruentPow(A * Pow(v, u), Pow(g, a + u * x), b, N);
    PowMul(g, a + u * x, b);
    assert (a + u * x) * b == b * (a + u * x);
  }

  /** Both sides derive the same secret whenever B has the fitting form. */
  lemma {:induction false} SecretsAgree(grp: Group, A: int, v: int, B: int, a: nat, x: nat, u: nat, b: nat)
    requires ValidGroup(grp)
    requires Congruent(A, Pow(grp.g, a), grp.N) && Congruent(v, Pow(grp.g, x), grp.N)
    requires FittingB(grp, B, b, u, x)
    ensures ClientSecret(grp, a, x, u, B) == ServerSecret(grp, A, v, u, b)
  {
    ServerSecretValue(grp, A, v, a, x, u, b);
    MulNonNegative(u, x);
    var e := a + u * x;
    CongruentSub(B, Pow(grp.g, b) + u * Pow(grp.g, x), u * Pow(grp.g, x), u * Pow(grp.g, x), grp.N);
    CongruentPow(B - u * Pow(grp.g, x), Pow(grp.g, b), e, grp.N);
    PowMul(grp.g, b, e);
  }

  /**
   * Whole exchange: the server refuses exactly a zero A and then a zero u, the client exactly a zero B. Otherwise both
   * answer, and with a fitting B the two keys and the two M1 coincide, and M2 is the one the client expects.
   */
  lemma {:induction false} HandshakeAgrees(grp: Group, h: Hashes, username: string, password: string, salt: string,
                                           a: nat, b: nat, B: nat)
    requires ValidGroup(grp)
    ensures
      var x := h.privateKey(username, password, salt);
      var A, v := Pow(grp.g, a) % grp.N, Pow(grp.g, x) % grp.N;
      var u := h.scramble(A, B);
      var server := ServerResponse(grp, h, A, v, b, B, salt);
      var client := ClientResponse(grp, h, a, A, username, password, salt, B);
      && (server == Err(ZeroA) <==> A % grp.N == 0)
      && (server == Err(ZeroU) <==> A % grp.N != 0 && u == 0)
      && (client == Err(ZeroB) <==> B % grp.N == 0)
      && (A % grp.N != 0 && u != 0 && B % grp.N != 0 ==>
            && server.Ok? && client.Ok?
            && (FittingB(grp, B, b, u, x) ==>
                  && client.value.sessionKey == server.value.sessionKey
                  && server.value.M2 == h.serverProof(A, client.value.M1, client.value.sessionKey)))
  {
    var x := h.privateKey(username, password, salt);
    var A, v := Pow(grp.g, a) % grp.N, Pow(grp.g, x) % grp.N;
    if FittingB(grp, B, b, h.scramble(A, B), x) {
      ModSelf(Pow(grp.g, a), grp.N);
      ModSelf(Pow(grp.g, x), grp.N);
      SecretsAgree(grp, A, v, B, a, x, h.scramble(A, B), b);
    }
  }

  /** The two secrets of one client exponent a, for honest A and v. */
  ghost predicate Agree(grp: Group, a: nat, b: nat, x: nat, u: nat, B: int)
    requires ValidGroup(grp)
  {
    ClientSecret(grp, a, x, u, B) == ServerSecret(grp, Pow(grp.g, a) % grp.N, Pow(grp.g, x) % grp.N, u, b)
  }

  /**
   * The fitting form is also necessary. Agreement at two neighbouring client exponents (so also agreement at all of
   * them) forces B into the fitting form modulo every divisor of N for which the generator is invertible: for an even
   * N and g = 2, as in the source's constants, modulo the odd part of N.
   */
  lemma {:induction false} AgreementNeedsFit(grp: Group, M: int, P: int, gInverse: int, a: nat, b: nat, x: nat,
                                             u: nat, B: int)
    requires ValidGroup(grp) && M >= 1 && grp.N == M * P && Congruent(grp.g * gInverse, 1, M)
    requires Agree(grp, a, b, x, u, B) && Agree(grp, a + 1, b, x, u, B)
    ensures FittingB(Group(M, grp.g), B, b, u, x)
  {
    var g, N := grp.g, grp.N;
    MulNonNegative(u, x);
    var e := a + u * x;
    var c, d := B - u * Pow(g, x), Pow(g, b);
    AgreeIffPowers(grp, a, b, x, u, B);
    AgreeIffPowers(grp, a + 1, b, x, u, B);
    CongruentDivisor(Pow(c, e), Pow(d, e), M, P);
    CongruentDivisor(Pow(c, e + 1), Pow(d, e + 1), M, P);
    PowInverse(g, gInverse, b, M);
    PowInverse(d, Pow(gInverse, b), e, M);
    EqualBases(c, d, e, Pow(Pow(gInverse, b), e), M);
    CongruentSub(c, d, -(u * Pow(g, x)), -(u * Pow(g, x)), M);
  }

  /** Modulo P, B - u * g^x and g^b have the same e-th power. */
  ghost predicate SamePowers(grp: Group, P: int, B: int, b: nat, u: nat, x: nat, e: nat)
    requires P >= 1
  {
    Congruent(Pow(B - u * Pow(grp.g, x), e), Pow(Pow(grp.g, b), e), P)
  }

  /**
   * Agreement in every group. Split N into coprime M and P such that the generator is invertible modulo M (it always
   * can be: P collects the prime powers of N whose prime divides g). Two neighbouring client exponents agree exactly
   * when B has the fitting form modulo M and the two powers coincide modulo P.
   */
  lemma {:induction false} AgreementIff(grp: Group, M: int, P: int, i: int, j: int, gInverse: int, a: nat, b: nat,
                                        x: nat, u: nat, B: int)
    requires ValidGroup(grp) && M >= 1 && P >= 1 && grp.N == M * P && M * i + P * j == 1
    requires Congruent(grp.g * gInverse, 1, M)
    ensures u * x >= 0
    ensures Agree(grp, a, b, x, u, B) && Agree(grp, a + 1, b, x, u, B) <==>
            && FittingB(Group(M, grp.g), B, b, u, x)
            && SamePowers(grp, P, B, b, u, x, a + u * x) && SamePowers(grp, P, B, b, u, x, a + 1 + u * x)
  {
    hide Pow, Congruent, Agree;
    MulNonNegative(u, x);
    AgreeIffPowers(grp, a, b, x, u, B);
    AgreeIffPowers(grp, a + 1, b, x, u, B);
    var c, d, e := B - u * Pow(grp.g, x), Pow(grp.g, b), a + u * x;
    if Agree(grp, a, b, x, u, B) && Agree(grp, a + 1, b, x, u, B) {
      AgreementNeedsFit(grp, M, P, gInverse, a, b, x, u, B);
      CongruentDivisor(Pow(c, e), Pow(d, e), P, M);
      CongruentDivisor(Pow(c, e + 1), Pow(d, e + 1), P, M);
    }
    if FittingB(Group(M, grp.g), B, b, u, x)
       && SamePowers(grp, P, B, b, u, x, e) && SamePowers(grp, P, B, b, u, x, e + 1) {
      CongruentSub(B, d + u * Pow(grp.g, x), u * Pow(grp.g, x), u * Pow(grp.g, x), M);
      CongruentPow(c, d, e, M);
      CongruentPow(c, d, e + 1, M);
      CongruentJoin(Pow(c, e), Pow(d, e), M, P, i, j);
      CongruentJoin(Pow(c, e + 1), Pow(d, e + 1), M, P, i, j);
    }
  }

  /** Agreement compares the same power of B - u * g^x and of g^b. */
  lemma {:induction false} AgreeIffPowers(grp: Group, a: nat, b: nat, x: nat, u: nat, B: int)
    requires ValidGroup(grp) && u * x >= 0
    ensures Agree(grp, a, b, x, u, B) <==> SamePowers(grp, grp.N, B, b, u, x, a + u * x)
  {
    ModSelf(Pow(grp.g, a), grp.N);
    ModSelf(Pow(grp.g, x), grp.N);
    ServerSecretValue(grp, Pow(grp.g, a) % grp.N, Pow(grp.g, x) % grp.N, a, x, u, b);
    PowMul(grp.g, b, a + u * x);
  }

  lemma {:induction false} PowInverse(g: int, gInverse: int, e: nat, m: int)
    requires m >= 1 && Congruent(g * gInverse, 1, m)
    ensures Congruent(Pow(g, e) * Pow(gInverse, e), 1, m)
  {
    PowOfProduct(g, gInverse, e);
    CongruentPow(g * gInverse, 1, e, m);
    PowOfOne(e);
  }

  /** Equal e-th and (e+1)-st powers with an invertible e-th power have equal bases. */
  lemma {:induction false} EqualBases(c: int, d: int, e: nat, inverse: int, m: int)
    requires m >= 1
    requires Congruent(Pow(c, e), Pow(d, e), m) && Congruent(Pow(c, e + 1), Pow(d, e + 1), m)
    requires Congruent(Pow(d, e) * inverse, 1, m)
    ensures Congruent(c, d, m)
  {
    var p, q := Pow(c, e), Pow(d, e);
    CongruentMul(c, c, q, p, m);
    assert Congruent(c * q, d * q, m);
    CongruentMul(c * q, d * q, inverse, inverse, m);
    MulAssoc(c, q, inverse);
    MulAssoc(d, q, inverse);
    CongruentMul(c, c, q * inverse, 1, m);
    CongruentMul(d, d, q * inverse, 1, m);
  }

  /** The B the source really sends, g^(b+1), fits modulo M exactly when u * g^x happens to be g^(b+1) - g^b there. */
  lemma {:induction false} IssuedFitsIff(grp: Group, M: int, P: int, b: nat, x: nat, u: nat)
    requires ValidGroup(grp) && M >= 1 && grp.N == M * P
    ensures FittingB(Group(M, grp.g), Pow(grp.g, b + 1) % grp.N, b, u, x) <==>
            Congruent(u * Pow(grp.g, x), (grp.g - 1) * Pow(grp.g, b), M)
  {
    var g := grp.g;
    var gb, ux := Pow(g, b), u * Pow(g, x);
    ModSelf(Pow(g, b + 1), grp.N);
    CongruentDivisor(Pow(g, b + 1) % grp.N, Pow(g, b + 1), M, P);
    MulDifference(g, 1, gb);
    if Congruent(Pow(g, b + 1), gb + ux, M) {
      CongruentSub(Pow(g, b + 1), gb + ux, gb, gb, M);
    }
    if Congruent(ux, (g - 1) * gb, M) {
      CongruentSub(ux, (g - 1) * gb, -gb, -gb, M);
    }
  }

  // ---------------------------------------------------------------------------
  // Generator 2
  // ---------------------------------------------------------------------------

  /** How often 2 divides N. */
  function Twos(N: nat): (t: nat)
    requires N >= 1
  {
    if N % 2 == 0 then 1 + Twos(N / 2) else 0
  }

  function OddPart(N: nat): (m: nat)
    requires N >= 1
    ensures m >= 1 && m % 2 == 1
  {
    if N % 2 == 0 then OddPart(N / 2) else N
  }

  lemma {:induction false} OddPartTimesTwos(N: nat)
    requires N >= 1
    ensures N == OddPart(N) * Pow(2, Twos(N)) && Pow(2, Twos(N)) >= 1
  {
    if N % 2 == 0 {
      OddPartTimesTwos(N / 2);
      Doubled(OddPart(N / 2), Pow(2, Twos(N / 2)));
    }
  }

  lemma {:induction false} Doubled(m: int, p: int)
    ensures m * (2 * p) == 2 * (m * p)
  {
  }

  /** 2 is invertible modulo an odd number, by half of the next even one. */
  lemma {:induction false} HalfInverts(m: nat)
    requires m >= 1 && m % 2 == 1
    ensures Congruent(2 * ((m + 1) / 2), 1, m)
  {
    AddMultiple(1, 1, m);
  }

  /** An odd number is coprime with every power of 2. */
  lemma {:induction false} OddCoprime(m: nat, t: nat) returns (i: int, j: int)
    requires m >= 1 && m % 2 == 1
    ensures m * i + Pow(2, t) * j == 1
  {
    HalfInverts(m);
    j := Pow((m + 1) / 2, t);
    PowInverse(2, (m + 1) / 2, t, m);
    var k := Quotient(Pow(2, t) * j, 1, m);
    i := -k;
    MulDifference(0, k, m);
  }

  /** Modulo 2^t both powers vanish from exponent t on: g^b and B - u * g^x are even. */
  lemma {:induction false} EvenPowersVanish(t: nat, b: nat, x: nat, u: nat, N: int, M: int, e: nat)
    requires M >= 1 && N == M * Pow(2, t) && Pow(2, t) >= 1 && N > 1
    requires t > 0 ==> b >= 1 && x >= 1 && e >= t
    ensures SamePowers(Group(N, 2), Pow(2, t), Pow(2, b + 1) % N, b, u, x, e)
  {
    if t > 0 {
      var k := IssuedIsEven(t, b, x, u, N, M);
      assert Pow(2, b) == 2 * Pow(2, b - 1);
      hide Pow;
      CongruentPow(Pow(2, b + 1) % N - u * Pow(2, x), 2 * k, e, Pow(2, t));
      EvenPower(k, e, t);
      EvenPower(Pow(2, b - 1), e, t);
    }
  }

  lemma {:induction false} IssuedIsEven(t: nat, b: nat, x: nat, u: nat, N: int, M: int) returns (k: int)
    requires M >= 1 && N == M * Pow(2, t) && Pow(2, t) >= 1 && N > 1 && x >= 1
    ensures Congruent(Pow(2, b + 1) % N - u * Pow(2, x), 2 * k, Pow(2, t))
  {
    k := Pow(2, b) - u * Pow(2, x - 1);
    FactorTwo(b, x, u);
    ModSelf(Pow(2, b + 1), N);
    hide Pow, Congruent;
    assert Pow(2, b + 1) - u * Pow(2, x) == 2 * k;
    ReducedDifference(Pow(2, b + 1) % N, Pow(2, b + 1), u * Pow(2, x), Pow(2, t), M);
  }

  lemma {:induction false} ReducedDifference(B: int, y: int, z: int, P: int, M: int)
    requires M >= 1 && P >= 1 && M * P >= 1 && Congruent(B, y, M * P)
    ensures Congruent(B - z, y - z, P)
  {
    CongruentDivisor(B, y, P, M);
    CongruentSub(B, y, z, z, P);
  }

  lemma {:induction false} FactorTwo(b: nat, x: nat, u: nat)
    requires x >= 1
    ensures Pow(2, b + 1) - u * Pow(2, x) == 2 * (Pow(2, b) - u * Pow(2, x - 1))
  {
    assert u * (2 * Pow(2, x - 1)) == 2 * (u * Pow(2, x - 1));
  }

  lemma {:induction false} EvenPower(k: int, e: nat, t: nat)
    requires e >= t && Pow(2, t) >= 1
    ensures Congruent(Pow(2 * k, e), 0, Pow(2, t))
  {
    PowOfProduct(2, k, e);
    PowAdd(2, t, e - t);
    MulAssoc(Pow(2, t), Pow(2, e - t), Pow(k, e));
    hide Pow, Congruent;
    var q := Pow(2, e - t) * Pow(k, e);
    assert Pow(2, t) * q == 0 + q * Pow(2, t);
    CongruentBy(Pow(2 * k, e), 0, q, Pow(2, t));
  }

  /**
   * Exactly when the exchange as coded agrees, for the source's generator 2 and every modulus above 1. With the B
   * really sent, two neighbouring client exponents both agree if and only if u * 2^x and 2^b coincide modulo the odd
   * part of N. For an even N the secret exponents must not vanish and the combined exponent must reach the power of 2
   * in N; AgreementIff covers what is below.
   */
  lemma {:induction false} IssuedChallengeAgreesIff(N: nat, a: nat, b: nat, x: nat, u: nat)
    requires N > 1
    requires u * x >= 0 && (N % 2 == 0 ==> b >= 1 && x >= 1 && a + u * x >= Twos(N))
    ensures
      var grp, B := Group(N, 2), Pow(2, b + 1) % N;
      (Agree(grp, a, b, x, u, B) && Agree(grp, a + 1, b, x, u, B)) <==>
      Congruent(u * Pow(2, x), Pow(2, b), OddPart(N))
  {
    hide Pow, SamePowers, FittingB, Agree, OddPart;
    var grp, M, t := Group(N, 2), OddPart(N), Twos(N);
    var B, P := Pow(2, b + 1) % N, Pow(2, t);
    OddPartTimesTwos(N);
    HalfInverts(M);
    var i, j := OddCoprime(M, t);
    AgreementIff(grp, M, P, i, j, (M + 1) / 2, a, b, x, u, B);
    EvenPowersVanish(t, b, x, u, N, M, a + u * x);
    EvenPowersVanish(t, b, x, u, N, M, a + 1 + u * x);
    IssuedFitsIff(grp, M, P, b, x, u);
  }

  /** The literal modulus ends in the hexadecimal digits 5000: 2^12 times an odd number above 1. */
  lemma {:induction false} LiteralModulusIsEven(N: nat, h: int)
    requires N % 0x1_0000 == 0x5000
    ensures N > 1 && Twos(N) == 12 && OddPart(N) > 1 && !Congruent(2 * h, 1, N)
  {
    hide Pow, Congruent, Twos, OddPart;
    var M := LastFourDigits(N);
    TwelveTwos();
    TwosTimes(M, 12);
    EvenHasNoHalf(N, h);
  }

  lemma {:induction false} LastFourDigits(N: nat) returns (M: nat)
    requires N % 0x1_0000 == 0x5000
    ensures N == 4096 * M && M > 1 && M % 2 == 1 && N % 2 == 0
  {
    M := 16 * (N / 0x1_0000) + 5;
  }

  lemma TwelveTwos()
    ensures Pow(2, 12) == 4096
  {
    assert Pow(2, 6) == 64;
    PowAdd(2, 6, 6);
  }

  /** 2 is not invertible modulo an even number. */
  lemma {:induction false} EvenHasNoHalf(N: nat, h: int)
    requires N >= 1 && N % 2 == 0
    ensures !Congruent(2 * h, 1, N)
  {
    if Congruent(2 * h, 1, N) {
      CongruentDivisor(2 * h, 1, 2, N / 2);
      assert false;
    }
  }

  lemma {:induction false} TwosTimes(M: nat, t: nat)
    requires M % 2 == 1
    ensures Pow(2, t) * M >= 1 && Twos(Pow(2, t) * M) == t && OddPart(Pow(2, t) * M) == M
  {
    if t == 0 {
      assert Pow(2, t) * M == M;
    } else {
      hide Twos, OddPart;
      TwosTimes(M, t - 1);
      MulAssoc(2, Pow(2, t - 1), M);
      TwosDouble(Pow(2, t - 1) * M);
    }
  }

  lemma {:induction false} TwosDouble(n: nat)
    requires n >= 1
    ensures Twos(2 * n) == 1 + Twos(n) && OddPart(2 * n) == OddPart(n)
  {
    assert 2 * n % 2 == 0 && 2 * n / 2 == n;
  }

  /**
   * So the exchange as coded does not agree in general: a = 1, b = 2, x = 1, u = 1 disagree for every modulus above
   * 20.
   */
  lemma {:induction false} IssuedChallengeCounterexample(N: nat)
    requires N > 20
    ensures !Agree(Group(N, 2), 1, 2, 1, 1, Pow(2, 3) % N)
  {
    SmallPowers(2);
    SmallPowers(4);
    SmallPowers(6);
    SmallRemainder(8, N);
    hide Pow, Agree;
    AgreeIffPowers(Group(N, 2), 1, 2, 1, 1, 8);
    FarApart(36, 16, N);
  }

  lemma {:induction false} SmallPowers(b: int)
    ensures Pow(b, 1) == b && Pow(b, 2) == b * b && Pow(b, 3) == b * b * b
  {
    MulAssoc(b, b, b);
  }

  /** Numbers less than N apart are congruent only if they are equal. */
  lemma {:induction false} FarApart(a: int, b: int, N: int)
    requires b < a < b + N
    ensures !Congruent(a, b, N)
  {
    if Congruent(a, b, N) {
      var k := Quotient(a, b, N);
      if k >= 1 { MulAtLeast(k, N); } else { MulAtLeast(1 - k, N); MulDifference(1, k, N); }
      assert false;
    }
  }
}
