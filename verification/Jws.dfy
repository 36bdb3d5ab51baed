/**
 * The compact JWS builders and verifiers for EdDSA, ML-DSA and hybrid keys (packages/crypto/src/jwt.ts).
 *
 * JSON and base64url are a Codec, the signature schemes a Scheme; what is assumed of them is LawfulCodec and
 * MatchingKey. Clock readings are in milliseconds.
 */
module Jws {
  import opened Wrappers
  import opened Bytes
  import opened Decimals
  import opened KeyStore
  import DerSignature

  /** JSON values as far as the claim checks tell them apart. */
  datatype Json = Number(n: int) | Text(s: string) | Texts(items: seq<string>) | Null | Other

  type Claims = map<string, Json>

  datatype Header = Header(alg: string, kid: string, pqcKid: Option<string>)

  /** Segment encodings: JSON then base64url, or base64url of bytes. */
  datatype Codec = Codec(
    encodeHeader: Header -> string,
    decodeHeader: string -> Option<Header>,
    encodeClaims: Claims -> string,
    decodeClaims: string -> Option<Claims>,
    encodeBytes: seq<Byte> -> string,
    decodeBytes: string -> seq<Byte>)

  /** Signing takes a private key and a message, verifying a public key, a message and a signature. */
  datatype Scheme = Scheme(
    edSign: (string, string) -> seq<Byte>,
    edVerify: (string, string, seq<Byte>) -> bool,
    mlSign: (Algorithm, string, string) -> seq<Byte>,
    mlVerify: (Algorithm, string, string, seq<Byte>) -> bool,
    classicalSign: (Algorithm, string, string) -> seq<Byte>,
    classicalVerify: (Algorithm, string, string, seq<Byte>) -> bool)

  datatype JwtError =
    | Malformed | InvalidToken | InvalidAlgorithm | InvalidSignature | UnknownKid
    | TokenExpired | NotActive | MaxAgeExceeded | IssuerInvalid | AudienceInvalid

  // ---------------------------------------------------------------------------
  // Segments
  // ---------------------------------------------------------------------------

  predicate NoDot(s: string) {
    '.' !in s
  }

  function Join(parts: seq<string>): string
    requires parts != []
  {
    if |parts| == 1 then parts[0] else parts[0] + "." + Join(parts[1..])
  }

  /** `s.split('.')` */
  function Split(s: string): (parts: seq<string>)
    ensures parts != []
  {
    if s == "" then [""]
    else if s[0] == '.' then [""] + Split(s[1..])
    else
      var rest := Split(s[1..]);
      [[s[0]] + rest[0]] + rest[1..]
  }

  lemma {:induction false} SplitPrefix(a: string, s: string)
    requires NoDot(a)
    ensures Split(a + s) == [a + Split(s)[0]] + Split(s)[1..]
  {
    var first, others := Split(s)[0], Split(s)[1..];
    if a == "" {
      assert a + s == s && a + first == first;
    } else {
      SplitPrefix(a[1..], s);
      SplitLetter(a[0], a[1..] + s);
      hide Split;
      assert a + s == [a[0]] + (a[1..] + s);
      assert ([a[1..] + first] + others)[1..] == others;
      assert [a[0]] + (a[1..] + first) == a + first;
    }
  }

  lemma {:induction false} SplitLetter(c: char, s: string)
    requires c != '.'
    ensures Split([c] + s) == [[c] + Split(s)[0]] + Split(s)[1..]
  {
    assert ([c] + s)[1..] == s;
  }

  /** Splitting recovers exactly the joined segments, none of which contains a dot. */
  lemma {:induction false} SplitJoin(parts: seq<string>)
    requires parts != [] && forall i :: 0 <= i < |parts| ==> NoDot(parts[i])
    ensures Split(Join(parts)) == parts
  {
    if |parts| == 1 {
      SplitPrefix(parts[0], "");
      assert parts[0] + "" == parts[0];
    } else {
      SplitJoin(parts[1..]);
      var rest := "." + Join(parts[1..]);
      SplitPrefix(parts[0], rest);
      assert rest[1..] == Join(parts[1..]);
      assert Split(rest) == [""] + parts[1..] && Split(rest)[1..] == parts[1..];
      assert Join(parts) == parts[0] + rest;
      assert parts[0] + "" == parts[0];
      assert parts == [parts[0]] + parts[1..];
    }
  }

  lemma {:induction false} JoinSplit(s: string)
    ensures Join(Split(s)) == s
    ensures forall i :: 0 <= i < |Split(s)| ==> NoDot(Split(s)[i])
  {
    if s == "" {
    } else {
      JoinSplit(s[1..]);
      var rest := Split(s[1..]);
      assert s == [s[0]] + s[1..];
      if s[0] == '.' {
        assert Split(s)[1..] == rest;
      } else {
        assert Split(s)[1..] == rest[1..];
        assert Join(Split(s)) == [s[0]] + Join(rest);
      }
    }
  }

  // ---------------------------------------------------------------------------
  // Claims
  // ---------------------------------------------------------------------------

  datatype Duration = Seconds(n: int) | Spelled(s: string)

  datatype SignOptions = SignOptions(expiresIn: Option<Duration>, notBefore: Option<Duration>)

  datatype VerifyOptions = VerifyOptions(
    maxAge: Option<Duration>,
    issuer: Option<seq<string>>,
    audience: Option<seq<string>>)

  /** The digits at the front of a string, read onto the number so far. */
  function LeadingDigits(s: string, sofar: nat): nat {
    if s == "" || !IsDigit(s[0]) then sofar else LeadingDigits(s[1..], 10 * sofar + (s[0] as int - '0' as int))
  }

  /** What JavaScript counts as white space or a line end. */
  predicate IsSpace(c: char) {
    || c in "\t\n\r \U{000B}\U{000C}\U{00A0}\U{1680}\U{2028}\U{2029}\U{202F}\U{205F}\U{3000}\U{FEFF}"
    || '\U{2000}' <= c <= '\U{200A}'
  }

  function SkipSpace(s: string): string {
    if s != "" && IsSpace(s[0]) then SkipSpace(s[1..]) else s
  }

  /** The number at the front of a text, if it starts with a digit. */
  function ParseDigits(s: string): Option<int> {
    if s == "" || !IsDigit(s[0]) then None else Some(LeadingDigits(s, 0))
  }

  function ParseSigned(s: string): Option<int> {
    if s != "" && s[0] == '+' then ParseDigits(s[1..])
    else if s != "" && s[0] == '-' then
      match ParseDigits(s[1..])
      case None => None
      case Some(n) => Some(-n)
    else ParseDigits(s)
  }

  /** `Number.parseInt(s, 10)`: white space, sign, digits; whatever follows is ignored. */
  function ParseInt(s: string): Option<int> {
    ParseSigned(SkipSpace(s))
  }

  /** The number of seconds; nothing for a text that is no number. Units are not interpreted. */
  function SecondsOf(d: Duration): Option<int> {
    match d
    case Seconds(n) => Some(n)
    case Spelled(s) => ParseInt(s)
  }

  /** A text of white space, an optional sign, digits, and a rest that does not go on with a digit. */
  ghost predicate Spells(s: string, space: string, sign: string, digits: string, rest: string) {
    && s == space + sign + digits + rest
    && (forall i :: 0 <= i < |space| ==> IsSpace(space[i]))
    && (sign == "" || sign == "+" || sign == "-")
    && digits != "" && (forall i :: 0 <= i < |digits| ==> IsDigit(digits[i]))
    && (rest != "" ==> !IsDigit(rest[0]))
  }

  /**
   * Units are ignored: however a spelled lifetime goes on after its digits, it counts as that many seconds. So "15m" is
   * fifteen seconds, not fifteen minutes.
   */
  lemma {:induction false} UnitsAreIgnored(s: string, space: string, sign: string, digits: string, rest: string)
    requires Spells(s, space, sign, digits, rest)
    ensures SecondsOf(Spelled(s)) == Some(if sign == "-" then -(DecimalValue(digits) as int) else DecimalValue(digits))
  {
    hide SkipSpace, LeadingDigits, DecimalValue, IsSpace, ParseDigits;
    var body := digits + rest;
    var t := sign + body;
    assert s == space + t;
    assert body[0] == digits[0];
    assert t[0] == if sign == "" then digits[0] else sign[0];
    NoSpace(t[0]);
    SkipsSpace(space, t);
    ParsesDigits(digits, rest);
    if sign == "" {
      assert t == body;
    } else {
      assert t[1..] == body;
    }
  }

  lemma {:induction false} ParsesDigits(digits: string, rest: string)
    requires digits != "" && forall i :: 0 <= i < |digits| ==> IsDigit(digits[i])
    requires rest != "" ==> !IsDigit(rest[0])
    ensures ParseDigits(digits + rest) == Some(DecimalValue(digits))
  {
    hide LeadingDigits, DecimalValue, Pow10;
    ReadsDigits(digits, rest, 0);
    assert 0 * Pow10(|digits|) == 0;
    assert (digits + rest)[0] == digits[0];
  }

  lemma {:induction false} NoSpace(c: char)
    requires c == '-' || c == '+' || IsDigit(c)
    ensures !IsSpace(c)
  {
  }

  lemma {:induction false} SkipsSpace(space: string, t: string)
    requires (forall i :: 0 <= i < |space| ==> IsSpace(space[i])) && t != "" && !IsSpace(t[0])
    ensures SkipSpace(space + t) == t
  {
    hide IsSpace;
    if space == "" {
      assert space + t == t;
    } else {
      assert (space + t)[0] == space[0] && (space + t)[1..] == space[1..] + t;
      SkipsSpace(space[1..], t);
    }
  }

  lemma {:induction false} ReadsDigits(digits: string, rest: string, sofar: nat)
    requires forall i :: 0 <= i < |digits| ==> IsDigit(digits[i])
    requires rest != "" ==> !IsDigit(rest[0])
    ensures LeadingDigits(digits + rest, sofar) == sofar * Pow10(|digits|) + DecimalValue(digits)
  {
    if digits == "" {
      assert digits + rest == rest;
    } else {
      var d: nat := digits[0] as int - '0' as int;
      assert (digits + rest)[1..] == digits[1..] + rest;
      ReadsDigits(digits[1..], rest, 10 * sofar + d);
      ReadFromFront(digits[0], digits[1..]);
      assert [digits[0]] + digits[1..] == digits;
      Shift(sofar, d, Pow10(|digits[1..]|));
    }
  }

  lemma {:induction false} Shift(n: nat, d: nat, p: nat)
    ensures (10 * n + d) * p == n * (10 * p) + p * d
  {
  }

  /** A spelled lifetime is a number at all exactly when it has that form. */
  lemma {:induction false} SpelledIsNumberIff(s: string)
    ensures SecondsOf(Spelled(s)).Some? <==> exists space, sign, digits, rest :: Spells(s, space, sign, digits, rest)
  {
    hide SecondsOf, Spells;
    if SecondsOf(Spelled(s)).Some? {
      var space, sign, digits, rest := SplitNumber(s);
    }
    forall space, sign, digits, rest | Spells(s, space, sign, digits, rest)
      ensures SecondsOf(Spelled(s)).Some?
    {
      UnitsAreIgnored(s, space, sign, digits, rest);
    }
  }

  lemma {:induction false} SplitNumber(s: string)
    returns (space: string, sign: string, digits: string, rest: string)
    requires SecondsOf(Spelled(s)).Some?
    ensures Spells(s, space, sign, digits, rest)
  {
    hide IsSpace, SkipSpace, IsDigit, LeadingDigits;
    space := SplitSpace(s);
    var body := SkipSpace(s);
    sign := "";
    if body[0] == '-' || body[0] == '+' {
      sign, body := body[..1], body[1..];
      assert SkipSpace(s) == sign + body;
    }
    digits, rest := SplitDigits(body);
    FourParts(s, space, sign, digits, rest);
  }

  lemma {:induction false} FourParts(s: string, a: string, b: string, c: string, d: string)
    requires s == a + (b + (c + d))
    ensures s == a + b + c + d
  {
    assert b + (c + d) == b + c + d;
  }

  lemma {:induction false} SplitSpace(s: string) returns (space: string)
    ensures s == space + SkipSpace(s) && forall i :: 0 <= i < |space| ==> IsSpace(space[i])
  {
    hide IsSpace;
    if s != "" && IsSpace(s[0]) {
      var rest := SplitSpace(s[1..]);
      space := [s[0]] + rest;
      assert s == [s[0]] + s[1..];
    } else {
      space := "";
    }
  }

  lemma {:induction false} SplitDigits(s: string) returns (digits: string, rest: string)
    ensures s == digits + rest && (forall i :: 0 <= i < |digits| ==> IsDigit(digits[i]))
    ensures rest != "" ==> !IsDigit(rest[0])
    ensures s != "" && IsDigit(s[0]) ==> digits != ""
  {
    if s != "" && IsDigit(s[0]) {
      digits, rest := SplitDigits(s[1..]);
      digits := [s[0]] + digits;
      assert s == [s[0]] + s[1..];
    } else {
      digits, rest := "", s;
    }
  }

  function Second(nowMs: int): int {
    nowMs / 1000
  }

  /** A time claim `second + d`; a sum that is not a number is written as null. */
  function TimeClaim(second: int, d: Duration): Json {
    match SecondsOf(d)
    case None => Null
    case Some(n) => Number(second + n)
  }

  function ClaimsWithTime(payload: Claims, options: SignOptions, nowMs: int): Claims {
    var now := Second(nowMs);
    var claims := map["iat" := Number(now)] + payload;
    var withExp :=
      if "exp" !in claims && options.expiresIn.Some? then claims["exp" := TimeClaim(now, options.expiresIn.value)]
      else claims;
    if "nbf" !in withExp && options.notBefore.Some? then withExp["nbf" := TimeClaim(now, options.notBefore.value)]
    else withExp
  }

  function NumberAt(claims: Claims, name: string): Option<int> {
    if name in claims && claims[name].Number? then Some(claims[name].n) else None
  }

  predicate IssuerOk(claims: Claims, expected: seq<string>) {
    "iss" in claims && claims["iss"].Text? && claims["iss"].s in expected
  }

  predicate AudienceOk(claims: Claims, expected: seq<string>) {
    "aud" in claims &&
    match claims["aud"]
    case Text(s) => s in expected
    case Texts(items) => exists i :: 0 <= i < |items| && items[i] in expected
    case _ => false
  }

  function CheckClaims(claims: Claims, options: VerifyOptions, nowMs: int): Result<(), JwtError> {
    var now := Second(nowMs);
    var exp, nbf, iat := NumberAt(claims, "exp"), NumberAt(claims, "nbf"), NumberAt(claims, "iat");
    var maxAge := if options.maxAge.Some? then SecondsOf(options.maxAge.value) else None;
    if exp.Some? && now >= exp.value then Err(TokenExpired)
    else if nbf.Some? && now < nbf.value then Err(NotActive)
    else if maxAge.Some? && iat.Some? && now - iat.value > maxAge.value then Err(MaxAgeExceeded)
    else if options.issuer.Some? && !IssuerOk(claims, options.issuer.value) then Err(IssuerInvalid)
    else if options.audience.Some? && !AudienceOk(claims, options.audience.value) then Err(AudienceInvalid)
    else Ok(())
  }

  // ---------------------------------------------------------------------------
  // Signing
  // ---------------------------------------------------------------------------

  predicate IsHybrid(a: Algorithm) {
    a == HybridRS256 || a == HybridES256
  }

  predicate IsPurePq(a: Algorithm) {
    a == MlDsa65 || a == MlDsa87
  }

  /** The algorithms whose tokens are built here; RS256 and ES256 are left to a library. */
  predicate IsManual(a: Algorithm) {
    IsHybrid(a) || IsPurePq(a) || a == EdDSA
  }

  function AlgName(a: Algorithm): string {
    match a
    case RS256 => "RS256"
    case ES256 => "ES256"
    case EdDSA => "EdDSA"
    case MlDsa65 => "ML-DSA-65"
    case MlDsa87 => "ML-DSA-87"
    case HybridRS256 => "hybrid-RS256-MLDSA65"
    case HybridES256 => "hybrid-ES256-MLDSA65"
  }

  function HeaderOf(key: SigningKey): Header {
    Header(AlgName(key.algorithm), key.kid, if IsHybrid(key.algorithm) then Some(key.kid + "-pqc") else None)
  }

  function SigningInput(header: string, payload: string): string {
    header + "." + payload
  }

  /** The classical leg: ES256 signatures leave DER for raw r || s, which fails for anything but a signature. */
  function ClassicalLeg(s: Scheme, key: SigningKey, input: string): Result<seq<Byte>, JwtError> {
    var raw := s.classicalSign(ClassicalOf(key.algorithm), key.material.privateKey, input);
    if ClassicalOf(key.algorithm) == ES256 then
      match DerSignature.DerToJose(raw)
      case Ok(jose) => Ok(jose)
      case Err(_) => Err(InvalidSignature)
    else Ok(raw)
  }

  function Signatures(s: Scheme, key: SigningKey, input: string): Result<seq<seq<Byte>>, JwtError>
    requires IsManual(key.algorithm)
  {
    if IsHybrid(key.algorithm) then
      match ClassicalLeg(s, key, input)
      case Err(e) => Err(e)
      case Ok(leg) => Ok([leg, s.mlSign(MlDsa65, key.material.pqPrivateKey, input)])
    else if IsPurePq(key.algorithm) then Ok([s.mlSign(key.algorithm, key.material.pqPrivateKey, input)])
    else Ok([s.edSign(key.material.privateKey, input)])
  }

  function EncodeAll(c: Codec, sigs: seq<seq<Byte>>): (r: seq<string>)
    ensures |r| == |sigs|
  {
    seq(|sigs|, i requires 0 <= i < |sigs| => c.encodeBytes(sigs[i]))
  }

  function SignToken(c: Codec, s: Scheme, payload: Claims, key: SigningKey, options: SignOptions, nowMs: int)
    : Result<string, JwtError>
    requires IsManual(key.algorithm)
  {
    var header := c.encodeHeader(HeaderOf(key));
    var claims := c.encodeClaims(ClaimsWithTime(payload, options, nowMs));
    match Signatures(s, key, SigningInput(header, claims))
    case Err(e) => Err(e)
    case Ok(sigs) => Ok(Join([header, claims] + EncodeAll(c, sigs)))
  }

  // ---------------------------------------------------------------------------
  // Verifying
  // ---------------------------------------------------------------------------

  function ClassicalValid(s: Scheme, key: SigningKey, input: string, sig: seq<Byte>): Result<bool, JwtError> {
    var alg := ClassicalOf(key.algorithm);
    if alg == ES256 then
      match DerSignature.JoseToDer(sig)
      case Err(_) => Err(InvalidSignature)
      case Ok(der) => Ok(s.classicalVerify(alg, key.material.publicKey, input, der))
    else Ok(s.classicalVerify(alg, key.material.publicKey, input, sig))
  }

  /** Whether the signature segments are valid for the key; both legs must be for a hybrid key. */
  function SignaturesValid(c: Codec, s: Scheme, key: SigningKey, input: string, segments: seq<string>)
    : Result<(), JwtError>
    requires IsManual(key.algorithm) && |segments| == (if IsHybrid(key.algorithm) then 2 else 1)
  {
    var first := c.decodeBytes(segments[0]);
    if IsHybrid(key.algorithm) then
      match ClassicalValid(s, key, input, first)
      case Err(e) => Err(e)
      case Ok(classical) =>
        if classical && s.mlVerify(MlDsa65, key.material.pqPublicKey, input, c.decodeBytes(segments[1])) then Ok(())
        else Err(InvalidSignature)
    else if IsPurePq(key.algorithm) then
      if s.mlVerify(key.algorithm, key.material.pqPublicKey, input, first) then Ok(()) else Err(InvalidSignature)
    else
      if s.edVerify(key.material.publicKey, input, first) then Ok(()) else Err(InvalidSignature)
  }

  /** The number of segments a key's tokens have. */
  function Arity(a: Algorithm): nat {
    if IsHybrid(a) then 4 else 3
  }

  function VerifyToken(c: Codec, s: Scheme, token: string, key: SigningKey, options: VerifyOptions, nowMs: int)
    : Result<Claims, JwtError>
    requires IsManual(key.algorithm)
  {
    var parts := Split(token);
    if |parts| != Arity(key.algorithm) || (key.algorithm == EdDSA && "" in parts) then Err(Malformed)
    else
      match (c.decodeHeader(parts[0]), c.decodeClaims(parts[1]))
      case (Some(header), Some(claims)) =>
        if header.alg != AlgName(key.algorithm)
           || (IsHybrid(key.algorithm) && header.pqcKid != Some(key.kid + "-pqc")) then
          Err(InvalidAlgorithm)
        else
          (match SignaturesValid(c, s, key, SigningInput(parts[0], parts[1]), parts[2..])
           case Err(e) => Err(e)
           case Ok(_) =>
             match CheckClaims(claims, options, nowMs)
             case Err(e) => Err(e)
             case Ok(_) => Ok(claims))
      case _ => Err(InvalidToken)
  }

  // ---------------------------------------------------------------------------
  // Round trip
  // ---------------------------------------------------------------------------

  /** Encodings decode to what was encoded, contain no dot, and are not empty for non-empty content. */
  ghost predicate LawfulCodec(c: Codec) {
    && (forall h :: c.decodeHeader(c.encodeHeader(h)) == Some(h) && NoDot(c.encodeHeader(h)) && c.encodeHeader(h) != "")
    && (forall m :: c.decodeClaims(c.encodeClaims(m)) == Some(m) && NoDot(c.encodeClaims(m)) && c.encodeClaims(m) != "")
    && (forall b :: c.decodeBytes(c.encodeBytes(b)) == b && NoDot(c.encodeBytes(b))
                    && (b != [] ==> c.encodeBytes(b) != ""))
  }

  /** Public and private parts belong together: what one signs the other verifies. ECDSA signatures come in DER. */
  ghost predicate MatchingKey(s: Scheme, key: SigningKey) {
    var m, a := key.material, key.algorithm;
    && (a == EdDSA ==>
          forall x :: s.edSign(m.privateKey, x) != [] && s.edVerify(m.publicKey, x, s.edSign(m.privateKey, x)))
    && (IsPurePq(a) ==> forall x :: s.mlVerify(a, m.pqPublicKey, x, s.mlSign(a, m.pqPrivateKey, x)))
    && (IsHybrid(a) ==>
          && (forall x :: s.mlVerify(MlDsa65, m.pqPublicKey, x, s.mlSign(MlDsa65, m.pqPrivateKey, x)))
          && (forall x ::
                s.classicalVerify(ClassicalOf(a), m.publicKey, x, s.classicalSign(ClassicalOf(a), m.privateKey, x)))
          && (a == HybridES256 ==> forall x :: DerSignature.Canonical(s.classicalSign(ES256, m.privateKey, x))))
  }

  /** The classical leg of a hybrid signature verifies, through the DER round trip for ES256. */
  lemma {:induction false} ClassicalRoundTrip(s: Scheme, key: SigningKey, input: string)
    requires MatchingKey(s, key) && IsHybrid(key.algorithm)
    ensures ClassicalLeg(s, key, input).Ok?
    ensures ClassicalValid(s, key, input, ClassicalLeg(s, key, input).value) == Ok(true)
  {
    hide DerSignature.DerToJose, DerSignature.JoseToDer, DerSignature.Canonical;
    DerSignature.EncodeDecodeIff(s.classicalSign(ClassicalOf(key.algorithm), key.material.privateKey, input));
  }

  lemma {:induction false} SignaturesRoundTrip(c: Codec, s: Scheme, key: SigningKey, input: string)
    requires LawfulCodec(c) && MatchingKey(s, key) && IsManual(key.algorithm)
    ensures
      var sigs := Signatures(s, key, input);
      && sigs.Ok? && |sigs.value| == Arity(key.algorithm) - 2
      && SignaturesValid(c, s, key, input, EncodeAll(c, sigs.value)) == Ok(())
      && (key.algorithm == EdDSA ==> "" !in EncodeAll(c, sigs.value))
      && (forall i :: 0 <= i < |sigs.value| ==> NoDot(EncodeAll(c, sigs.value)[i]))
  {
    hide ClassicalLeg, ClassicalValid;
    if IsHybrid(key.algorithm) { ClassicalRoundTrip(s, key, input); }
  }

  /** The segments of a signed token: header, claims and one signature, or two for a hybrid key. */
  lemma {:induction false} SignedSegments(c: Codec, s: Scheme, payload: Claims, key: SigningKey, options: SignOptions,
                                          nowMs: int)
    requires LawfulCodec(c) && MatchingKey(s, key) && IsManual(key.algorithm)
    ensures
      var token := SignToken(c, s, payload, key, options, nowMs);
      var header, claims := c.encodeHeader(HeaderOf(key)), c.encodeClaims(ClaimsWithTime(payload, options, nowMs));
      var sigs := Signatures(s, key, SigningInput(header, claims));
      && token.Ok? && sigs.Ok?
      && Split(token.value) == [header, claims] + EncodeAll(c, sigs.value)
      && |Split(token.value)| == Arity(key.algorithm)
  {
    hide Signatures, MatchingKey, ClaimsWithTime, HeaderOf, EncodeAll, SignaturesValid;
    var header, claims := c.encodeHeader(HeaderOf(key)), c.encodeClaims(ClaimsWithTime(payload, options, nowMs));
    SignaturesRoundTrip(c, s, key, SigningInput(header, claims));
    var segments := EncodeAll(c, Signatures(s, key, SigningInput(header, claims)).value);
    SplitJoin([header, claims] + segments);
  }

  /**
   * Verifying a signed token with its own key comes down to the claim checks, and returns the signed claims: for
   * every payload, option and clock reading.
   */
  lemma {:induction false} VerifyOfSign(c: Codec, s: Scheme, payload: Claims, key: SigningKey, so: SignOptions,
                                        signedAt: int, vo: VerifyOptions, now: int)
    requires LawfulCodec(c) && MatchingKey(s, key) && IsManual(key.algorithm)
    ensures
      var token := SignToken(c, s, payload, key, so, signedAt);
      var claims := ClaimsWithTime(payload, so, signedAt);
      token.Ok? && VerifyToken(c, s, token.value, key, vo, now) ==
        (match CheckClaims(claims, vo, now) case Ok(_) => Ok(claims) case Err(e) => Err(e))
  {
    hide Signatures, MatchingKey, ClaimsWithTime, EncodeAll, SignaturesValid, SignToken, CheckClaims, Split;
    SignedSegments(c, s, payload, key, so, signedAt);
    var header, claims := c.encodeHeader(HeaderOf(key)), c.encodeClaims(ClaimsWithTime(payload, so, signedAt));
    SignaturesRoundTrip(c, s, key, SigningInput(header, claims));
    var segments := EncodeAll(c, Signatures(s, key, SigningInput(header, claims)).value);
    var parts := [header, claims] + segments;
    assert parts[0] == header && parts[1] == claims && parts[2..] == segments;
    if key.algorithm == EdDSA {
      assert "" !in parts;
    }
  }

  const NO_CHECKS := VerifyOptions(None, None, None)

  /**
   * A token signed with lifetime n, without time claims of its own, is accepted in exactly the seconds before s +
   * n.
   */
  lemma {:induction false} AcceptedExactlyWhileAlive(c: Codec, s: Scheme, payload: Claims, key: SigningKey, n: int,
                                                     signedAt: int, now: int)
    requires LawfulCodec(c) && MatchingKey(s, key) && IsManual(key.algorithm)
    requires "exp" !in payload && "nbf" !in payload
    ensures
      var so := SignOptions(Some(Seconds(n)), None);
      var token := SignToken(c, s, payload, key, so, signedAt);
      token.Ok? && VerifyToken(c, s, token.value, key, NO_CHECKS, now) ==
        if Second(now) < Second(signedAt) + n then Ok(ClaimsWithTime(payload, so, signedAt)) else Err(TokenExpired)
  {
    hide SignToken, VerifyToken, MatchingKey, LawfulCodec;
    VerifyOfSign(c, s, payload, key, SignOptions(Some(Seconds(n)), None), signedAt, NO_CHECKS, now);
  }

  function InSeconds(n: Option<int>): Option<Duration> {
    match n
    case None => None
    case Some(k) => Some(Seconds(k))
  }

  /**
   * The whole time window: with lifetime n, activation delay m and maximal age k, each optional, a token without time
   * claims of its own is accepted exactly in the seconds from s + m on, before s + n, and up to s + k.
   */
  lemma {:induction false} AcceptedExactlyInWindow(c: Codec, s: Scheme, payload: Claims, key: SigningKey,
                                                   n: Option<int>, m: Option<int>, k: Option<int>, signedAt: int,
                                                   now: int)
    requires LawfulCodec(c) && MatchingKey(s, key) && IsManual(key.algorithm)
    requires "exp" !in payload && "nbf" !in payload && "iat" !in payload
    ensures
      var token := SignToken(c, s, payload, key, SignOptions(InSeconds(n), InSeconds(m)), signedAt);
      var start, t := Second(signedAt), Second(now);
      token.Ok? && (VerifyToken(c, s, token.value, key, VerifyOptions(InSeconds(k), None, None), now).Ok? <==>
                    && (n.Some? ==> t < start + n.value)
                    && (m.Some? ==> start + m.value <= t)
                    && (k.Some? ==> t <= start + k.value))
  {
    hide SignToken, VerifyToken, MatchingKey, LawfulCodec;
    VerifyOfSign(c, s, payload, key, SignOptions(InSeconds(n), InSeconds(m)), signedAt,
                 VerifyOptions(InSeconds(k), None, None), now);
  }

  /** A token of one of these algorithms is refused by every key of another one. */
  lemma {:induction false} OtherAlgorithmRefuses(c: Codec, s: Scheme, payload: Claims, key: SigningKey,
                                                 so: SignOptions, signedAt: int, other: SigningKey, vo: VerifyOptions,
                                                 now: int)
    requires LawfulCodec(c) && MatchingKey(s, key) && IsManual(key.algorithm) && IsManual(other.algorithm)
    requires key.algorithm != other.algorithm
    ensures
      var token := SignToken(c, s, payload, key, so, signedAt);
      token.Ok? && VerifyToken(c, s, token.value, other, vo, now).Err?
  {
    hide Signatures, MatchingKey, ClaimsWithTime, EncodeAll, SignaturesValid, SignToken, CheckClaims, Split;
    SignedSegments(c, s, payload, key, so, signedAt);
    AlgNamesDiffer(key.algorithm, other.algorithm);
  }

  lemma {:induction false} AlgNamesDiffer(a: Algorithm, b: Algorithm)
    requires a != b
    ensures AlgName(a) != AlgName(b)
  {
    assert "ML-DSA-65"[7] != "ML-DSA-87"[7];
    assert "hybrid-RS256-MLDSA65"[7] != "hybrid-ES256-MLDSA65"[7];
    assert "RS256"[0] != "ES256"[0] && "RS256"[0] != "EdDSA"[0] && "ES256"[1] != "EdDSA"[1];
  }

  /** A clock reading's second is the whole seconds it has passed. */
  lemma {:induction false} SecondIsFloor(nowMs: int)
    ensures 1000 * Second(nowMs) <= nowMs < 1000 * Second(nowMs) + 1000
  {
  }

  /**
   * In milliseconds: a token with a lifetime of n seconds is accepted for more than n - 1 and at most n seconds, and
   * to the whole second for one that is signed on the second.
   */
  lemma {:induction false} LifetimeInMilliseconds(c: Codec, s: Scheme, payload: Claims, key: SigningKey, n: int,
                                                  signedAt: int, now: int)
    requires LawfulCodec(c) && MatchingKey(s, key) && IsManual(key.algorithm)
    requires "exp" !in payload && "nbf" !in payload
    ensures
      var token := SignToken(c, s, payload, key, SignOptions(Some(Seconds(n)), None), signedAt);
      && token.Ok?
      && var r := VerifyToken(c, s, token.value, key, NO_CHECKS, now);
         && (now <= signedAt + 1000 * (n - 1) ==> r.Ok?)
         && (now >= signedAt + 1000 * n ==> r == Err(TokenExpired))
         && (signedAt % 1000 == 0 ==> (r.Ok? <==> now < signedAt + 1000 * n))
  {
    hide SignToken, VerifyToken, MatchingKey, LawfulCodec, ClaimsWithTime, Second;
    AcceptedExactlyWhileAlive(c, s, payload, key, n, signedAt, now);
    SecondIsFloor(signedAt);
    SecondIsFloor(now);
  }

  /** A lifetime that is not a number never ends: the token is accepted at every time. */
  lemma {:induction false} UnreadableLifetimeNeverEnds(c: Codec, s: Scheme, payload: Claims, key: SigningKey,
                                                       lifetime: string, signedAt: int)
    requires LawfulCodec(c) && MatchingKey(s, key) && IsManual(key.algorithm)
    requires "exp" !in payload && "nbf" !in payload
    ensures
      var token := SignToken(c, s, payload, key, SignOptions(Some(Spelled(lifetime)), None), signedAt);
      && token.Ok?
      && ((forall now :: VerifyToken(c, s, token.value, key, NO_CHECKS, now).Ok?)
          <==> !exists space, sign, digits, rest :: Spells(lifetime, space, sign, digits, rest))
  {
    hide SignToken, VerifyToken, MatchingKey, LawfulCodec, ParseInt, Spells, Second;
    var so := SignOptions(Some(Spelled(lifetime)), None);
    SpelledIsNumberIff(lifetime);
    forall now
      ensures
        var token := SignToken(c, s, payload, key, so, signedAt);
        token.Ok? && (VerifyToken(c, s, token.value, key, NO_CHECKS, now).Ok? <==>
          (SecondsOf(Spelled(lifetime)).Some? ==>
             Second(now) < Second(signedAt) + SecondsOf(Spelled(lifetime)).value))
    {
      VerifyOfSign(c, s, payload, key, so, signedAt, NO_CHECKS, now);
    }
    if SecondsOf(Spelled(lifetime)).Some? {
      var end := Second(signedAt) + SecondsOf(Spelled(lifetime)).value;
      SecondIsFloor(1000 * end);
      var token := SignToken(c, s, payload, key, so, signedAt).value;
      assert !VerifyToken(c, s, token, key, NO_CHECKS, 1000 * end).Ok?;
    }
  }

  /**
   * Verification gives back every claim that was signed, and besides these at most the time of issue, the end and the
   * start of validity; the time of issue is the second of signing.
   */
  lemma {:induction false} SignedClaimsComeBack(c: Codec, s: Scheme, payload: Claims, key: SigningKey, so: SignOptions,
                                                signedAt: int, vo: VerifyOptions, now: int)
    requires LawfulCodec(c) && MatchingKey(s, key) && IsManual(key.algorithm)
    ensures
      var token := SignToken(c, s, payload, key, so, signedAt);
      && token.Ok?
      && var r := VerifyToken(c, s, token.value, key, vo, now);
         r.Ok? ==>
           && (forall name :: name in payload ==> name in r.value && r.value[name] == payload[name])
           && r.value.Keys == payload.Keys + {"iat"} + (if so.expiresIn.Some? then {"exp"} else {})
                              + (if so.notBefore.Some? then {"nbf"} else {})
           && ("iat" !in payload ==> r.value["iat"] == Number(Second(signedAt)))
  {
    hide SignToken, VerifyToken, MatchingKey, LawfulCodec, CheckClaims, TimeClaim;
    VerifyOfSign(c, s, payload, key, so, signedAt, vo, now);
  }

  /** The issuer claim is one of the expected texts. */
  ghost predicate NamesIssuer(claims: Claims, expected: seq<string>) {
    exists i :: 0 <= i < |expected| && "iss" in claims && claims["iss"] == Text(expected[i])
  }

  /** The audience claim is one of the expected texts, or a list with one of them. */
  ghost predicate NamesAudience(claims: Claims, expected: seq<string>) {
    exists i :: 0 <= i < |expected| && "aud" in claims
                && (claims["aud"] == Text(expected[i])
                    || (claims["aud"].Texts? && expected[i] in claims["aud"].items))
  }

  lemma {:induction false} NamesIff(claims: Claims, expected: seq<string>)
    ensures IssuerOk(claims, expected) <==> NamesIssuer(claims, expected)
    ensures AudienceOk(claims, expected) <==> NamesAudience(claims, expected)
  {
    if IssuerOk(claims, expected) {
      var i :| 0 <= i < |expected| && expected[i] == claims["iss"].s;
    }
    if AudienceOk(claims, expected) {
      if claims["aud"].Text? {
        var i :| 0 <= i < |expected| && expected[i] == claims["aud"].s;
      } else {
        var j :| 0 <= j < |claims["aud"].items| && claims["aud"].items[j] in expected;
        var i :| 0 <= i < |expected| && expected[i] == claims["aud"].items[j];
      }
    }
    if NamesAudience(claims, expected) && claims["aud"].Texts? {
      var i :| 0 <= i < |expected| && expected[i] in claims["aud"].items;
      var j :| 0 <= j < |claims["aud"].items| && claims["aud"].items[j] == expected[i];
    }
  }

  /**
   * Who may present a token and where: a signed token without time limits is accepted if and only if it names an
   * expected issuer, where one is expected, and an expected audience, where one is; the issuer is judged first.
   */
  lemma {:induction false} AcceptedForIssuerAndAudience(c: Codec, s: Scheme, payload: Claims, key: SigningKey,
                                                        signedAt: int, issuer: Option<seq<string>>,
                                                        audience: Option<seq<string>>, now: int)
    requires LawfulCodec(c) && MatchingKey(s, key) && IsManual(key.algorithm)
    requires "exp" !in payload && "nbf" !in payload
    ensures
      var token := SignToken(c, s, payload, key, SignOptions(None, None), signedAt);
      var wrongIssuer := issuer.Some? && !NamesIssuer(payload, issuer.value);
      var wrongAudience := audience.Some? && !NamesAudience(payload, audience.value);
      && token.Ok?
      && var r := VerifyToken(c, s, token.value, key, VerifyOptions(None, issuer, audience), now);
         && (r.Ok? <==> !wrongIssuer && !wrongAudience)
         && (r == Err(IssuerInvalid) <==> wrongIssuer)
         && (r == Err(AudienceInvalid) <==> !wrongIssuer && wrongAudience)
  {
    hide SignToken, VerifyToken, MatchingKey, LawfulCodec, IssuerOk, AudienceOk, NamesIssuer, NamesAudience;
    var claims := ClaimsWithTime(payload, SignOptions(None, None), signedAt);
    VerifyOfSign(c, s, payload, key, SignOptions(None, None), signedAt, VerifyOptions(None, issuer, audience), now);
    if issuer.Some? { SameNames(claims, payload, issuer.value); }
    if audience.Some? { SameNames(claims, payload, audience.value); }
  }

  lemma {:induction false} SameNames(claims: Claims, payload: Claims, expected: seq<string>)
    requires "iss" in claims <==> "iss" in payload
    requires "aud" in claims <==> "aud" in payload
    requires "iss" in payload ==> claims["iss"] == payload["iss"]
    requires "aud" in payload ==> claims["aud"] == payload["aud"]
    ensures IssuerOk(claims, expected) <==> NamesIssuer(payload, expected)
    ensures AudienceOk(claims, expected) <==> NamesAudience(payload, expected)
  {
    hide AudienceOk, NamesIssuer, NamesAudience;
    NamesIff(payload, expected);
    SameAudience(claims, payload, expected);
  }

  lemma {:induction false} SameAudience(claims: Claims, payload: Claims, expected: seq<string>)
    requires "aud" in claims <==> "aud" in payload
    requires "aud" in payload ==> claims["aud"] == payload["aud"]
    ensures AudienceOk(claims, expected) <==> AudienceOk(payload, expected)
  {
  }

  /** The claims have ended, have not begun, or are too old at the second `now`. */
  predicate Ended(claims: Claims, now: int) {
    "exp" in claims && claims["exp"].Number? && claims["exp"].n <= now
  }

  predicate NotBegun(claims: Claims, now: int) {
    "nbf" in claims && claims["nbf"].Number? && now < claims["nbf"].n
  }

  predicate TooOld(claims: Claims, maxAge: Option<Duration>, now: int) {
    && maxAge.Some? && SecondsOf(maxAge.value).Some?
    && "iat" in claims && claims["iat"].Number? && claims["iat"].n + SecondsOf(maxAge.value).value < now
  }

  // ---------------------------------------------------------------------------
  // Any accepted token
  // ---------------------------------------------------------------------------

  /** The token consists of these segments, which name the key's algorithm, hold the claims and are validly signed. */
  ghost predicate Carries(c: Codec, s: Scheme, key: SigningKey, token: string, claims: Claims, parts: seq<string>)
    requires IsManual(key.algorithm)
  {
    && |parts| == Arity(key.algorithm)
    && (forall i :: 0 <= i < |parts| ==> NoDot(parts[i]))
    && token == Join(parts)
    && c.decodeHeader(parts[0]).Some?
    && c.decodeHeader(parts[0]).value.alg == AlgName(key.algorithm)
    && (IsHybrid(key.algorithm) ==> c.decodeHeader(parts[0]).value.pqcKid == Some(key.kid + "-pqc"))
    && c.decodeClaims(parts[1]) == Some(claims)
    && SignaturesValid(c, s, key, SigningInput(parts[0], parts[1]), parts[2..]).Ok?
  }

  /**
   * Acceptance of any string at all: exactly when it consists of the key's number of segments, names the key's
   * algorithm (and the hybrid key itself), carries valid signatures over its own first two segments, and its claims
   * pass the checks now. EdDSA tokens need non-empty segments besides.
   */
  lemma {:induction false} AcceptedIff(c: Codec, s: Scheme, token: string, key: SigningKey, vo: VerifyOptions,
                                       now: int, claims: Claims)
    requires IsManual(key.algorithm)
    ensures VerifyToken(c, s, token, key, vo, now) == Ok(claims) <==>
      && CheckClaims(claims, vo, now).Ok?
      && exists parts :: Carries(c, s, key, token, claims, parts) && (key.algorithm == EdDSA ==> "" !in parts)
  {
    hide SignaturesValid, CheckClaims, Split, Join;
    var split := Split(token);
    JoinSplit(token);
    if VerifyToken(c, s, token, key, vo, now) == Ok(claims) {
      assert Carries(c, s, key, token, claims, split);
    }
    if exists parts :: Carries(c, s, key, token, claims, parts) && (key.algorithm == EdDSA ==> "" !in parts) {
      var parts :| Carries(c, s, key, token, claims, parts) && (key.algorithm == EdDSA ==> "" !in parts);
      SplitJoin(parts);
    }
  }

  /**
   * Claims are judged last: whoever is told that a token has expired, is not active yet, is too old, or is meant for
   * someone else holds one that names the key's algorithm and is validly signed, and whose claims fail just so; the
   * first of these faults is the one that is told.
   */
  lemma {:induction false} ClaimErrorsIff(c: Codec, s: Scheme, token: string, key: SigningKey, vo: VerifyOptions,
                                          now: int)
    requires IsManual(key.algorithm)
    ensures
      var r := VerifyToken(c, s, token, key, vo, now);
      && (r == Err(TokenExpired) <==> exists claims :: Presents(c, s, key, token, claims) && Ended(claims, Second(now)))
      && (r == Err(NotActive) <==>
            exists claims :: Presents(c, s, key, token, claims) && !Ended(claims, Second(now))
                             && NotBegun(claims, Second(now)))
      && (r == Err(MaxAgeExceeded) <==>
            exists claims :: Presents(c, s, key, token, claims) && !Ended(claims, Second(now))
                             && !NotBegun(claims, Second(now)) && TooOld(claims, vo.maxAge, Second(now)))
      && (r in {Err(IssuerInvalid), Err(AudienceInvalid)} || r.Ok? <==>
            exists claims :: Presents(c, s, key, token, claims) && !Ended(claims, Second(now))
                             && !NotBegun(claims, Second(now)) && !TooOld(claims, vo.maxAge, Second(now)))
  {
    hide VerifyToken, Presents, CheckClaims, IssuerOk, AudienceOk, SecondsOf, Ended, NotBegun, TooOld;
    var r := VerifyToken(c, s, token, key, vo, now);
    ClaimsLast(c, s, token, key, vo, now);
    forall claims | Presents(c, s, key, token, claims)
      ensures
        var t := Second(now);
        && (r == Err(TokenExpired) <==> Ended(claims, t))
        && (r == Err(NotActive) <==> !Ended(claims, t) && NotBegun(claims, t))
        && (r == Err(MaxAgeExceeded) <==> !Ended(claims, t) && !NotBegun(claims, t) && TooOld(claims, vo.maxAge, t))
        && (r in {Err(IssuerInvalid), Err(AudienceInvalid)} || r.Ok? <==>
              !Ended(claims, t) && !NotBegun(claims, t) && !TooOld(claims, vo.maxAge, t))
    {
      OrderOfClaims(claims, vo, now);
    }
    if exists claims :: Presents(c, s, key, token, claims) {
      var claims :| Presents(c, s, key, token, claims);
    }
  }

  /** The token consists of dot-free segments that carry the claims, none empty for an EdDSA key. */
  ghost predicate Presents(c: Codec, s: Scheme, key: SigningKey, token: string, claims: Claims)
    requires IsManual(key.algorithm)
  {
    exists parts :: Carries(c, s, key, token, claims, parts) && (key.algorithm == EdDSA ==> "" !in parts)
  }

  /**
   * Why a token is refused before its claims are looked at, of the dot-free segments any string consists of: their
   * number is wrong (or one is empty, for an EdDSA key); header or claims cannot be read; the header names another
   * algorithm, or for a hybrid key another key; a signature is not valid. The first of these is what is told.
   */
  lemma {:induction false} FormErrorsIff(c: Codec, s: Scheme, parts: seq<string>, key: SigningKey, vo: VerifyOptions,
                                         now: int)
    requires IsManual(key.algorithm) && parts != [] && forall i :: 0 <= i < |parts| ==> NoDot(parts[i])
    ensures
      var r := VerifyToken(c, s, Join(parts), key, vo, now);
      var wellFormed := |parts| == Arity(key.algorithm) && (key.algorithm == EdDSA ==> "" !in parts);
      var readable := wellFormed && c.decodeHeader(parts[0]).Some? && c.decodeClaims(parts[1]).Some?;
      var named := readable && c.decodeHeader(parts[0]).value.alg == AlgName(key.algorithm)
                   && (IsHybrid(key.algorithm) ==> c.decodeHeader(parts[0]).value.pqcKid == Some(key.kid + "-pqc"));
      && (r == Err(Malformed) <==> !wellFormed)
      && (r == Err(InvalidToken) <==> wellFormed && !readable)
      && (r == Err(InvalidAlgorithm) <==> readable && !named)
      && (r == Err(InvalidSignature) <==>
            named && SignaturesValid(c, s, key, SigningInput(parts[0], parts[1]), parts[2..]).Err?)
  {
    hide SignaturesValid, CheckClaims, Split, Join;
    SplitJoin(parts);
    if |parts| == Arity(key.algorithm) {
      SignatureErrors(c, s, key, SigningInput(parts[0], parts[1]), parts[2..]);
      if c.decodeClaims(parts[1]).Some? { OrderOfClaims(c.decodeClaims(parts[1]).value, vo, now); }
    }
  }

  /** What a signed token's header says. */
  lemma {:induction false} SignedHeader(c: Codec, s: Scheme, payload: Claims, key: SigningKey, so: SignOptions,
                                        nowMs: int)
    requires LawfulCodec(c) && MatchingKey(s, key) && IsManual(key.algorithm)
    ensures
      var token := SignToken(c, s, payload, key, so, nowMs);
      && token.Ok?
      && var header := c.decodeHeader(Split(token.value)[0]);
         && header.Some? && header.value.kid == key.kid
         && (header.value.alg == "EdDSA" <==> key.algorithm == EdDSA)
         && (header.value.alg == "ML-DSA-65" <==> key.algorithm == MlDsa65)
         && (header.value.alg == "ML-DSA-87" <==> key.algorithm == MlDsa87)
         && (header.value.alg == "hybrid-RS256-MLDSA65" <==> key.algorithm == HybridRS256)
         && (header.value.alg == "hybrid-ES256-MLDSA65" <==> key.algorithm == HybridES256)
         && header.value.pqcKid == if IsHybrid(key.algorithm) then Some(key.kid + "-pqc") else None
  {
    hide Signatures, MatchingKey, ClaimsWithTime, EncodeAll, SignToken, Split, AlgName;
    SignedSegments(c, s, payload, key, so, nowMs);
    forall a: Algorithm, b: Algorithm | a != b
      ensures AlgName(a) != AlgName(b)
    {
      AlgNamesDiffer(a, b);
    }
    AlgNames();
  }

  lemma AlgNames()
    ensures AlgName(EdDSA) == "EdDSA" && AlgName(MlDsa65) == "ML-DSA-65" && AlgName(MlDsa87) == "ML-DSA-87"
    ensures AlgName(HybridRS256) == "hybrid-RS256-MLDSA65" && AlgName(HybridES256) == "hybrid-ES256-MLDSA65"
  {
  }

  /** Claims that are presented are all that is judged; without any the token is refused for its form or signature. */
  lemma {:induction false} ClaimsLast(c: Codec, s: Scheme, token: string, key: SigningKey, vo: VerifyOptions, now: int)
    requires IsManual(key.algorithm)
    ensures
      var r := VerifyToken(c, s, token, key, vo, now);
      && (forall claims :: Presents(c, s, key, token, claims) ==>
            r == match CheckClaims(claims, vo, now) case Ok(_) => Ok(claims) case Err(e) => Err(e))
      && ((forall claims :: !Presents(c, s, key, token, claims)) ==>
            r in {Err(Malformed), Err(InvalidToken), Err(InvalidAlgorithm), Err(InvalidSignature)})
  {
    hide SignaturesValid, CheckClaims, Split, Join;
    var r, split := VerifyToken(c, s, token, key, vo, now), Split(token);
    JoinSplit(token);
    forall claims | Presents(c, s, key, token, claims)
      ensures r == match CheckClaims(claims, vo, now) case Ok(_) => Ok(claims) case Err(e) => Err(e)
    {
      var parts :| Carries(c, s, key, token, claims, parts) && (key.algorithm == EdDSA ==> "" !in parts);
      SplitJoin(parts);
    }
    if |split| == Arity(key.algorithm) && c.decodeClaims(split[1]).Some? && c.decodeHeader(split[0]).Some? {
      var claims := c.decodeClaims(split[1]).value;
      SignatureErrors(c, s, key, SigningInput(split[0], split[1]), split[2..]);
      assert Carries(c, s, key, token, claims, split) && (key.algorithm == EdDSA ==> "" !in split) ==>
        Presents(c, s, key, token, claims);
    }
  }

  lemma {:induction false} SignatureErrors(c: Codec, s: Scheme, key: SigningKey, input: string, segments: seq<string>)
    requires IsManual(key.algorithm) && |segments| == (if IsHybrid(key.algorithm) then 2 else 1)
    ensures SignaturesValid(c, s, key, input, segments) in {Ok(()), Err(InvalidSignature)}
  {
    hide DerSignature.JoseToDer;
  }

  /** What the checks say, in their order. */
  ghost predicate JudgedInOrder(claims: Claims, vo: VerifyOptions, now: int) {
    var r, t := CheckClaims(claims, vo, now), Second(now);
    && (r == Err(TokenExpired) <==> Ended(claims, t))
    && (r == Err(NotActive) <==> !Ended(claims, t) && NotBegun(claims, t))
    && (r == Err(MaxAgeExceeded) <==> !Ended(claims, t) && !NotBegun(claims, t) && TooOld(claims, vo.maxAge, t))
    && (r in {Err(IssuerInvalid), Err(AudienceInvalid), Ok(())} <==>
          !Ended(claims, t) && !NotBegun(claims, t) && !TooOld(claims, vo.maxAge, t))
  }

  lemma {:induction false} OrderOfClaims(claims: Claims, vo: VerifyOptions, now: int)
    ensures JudgedInOrder(claims, vo, now)
  {
    hide IssuerOk, AudienceOk, SecondsOf, Second;
  }

  /** What the key's holder signed: headers with claims. */
  type Issued = iset<(Header, Claims)>

  /** The text is the signing input of something issued. */
  ghost predicate WasIssued(c: Codec, issued: Issued, input: string) {
    exists h, m :: (h, m) in issued && input == SigningInput(c.encodeHeader(h), c.encodeClaims(m))
  }

  /** The first two segments were never issued, yet the token's classical, post-quantum or EdDSA signature verifies. */
  ghost predicate ClassicalForged(c: Codec, s: Scheme, key: SigningKey, issued: Issued, parts: seq<string>)
    requires |parts| >= 3
  {
    var input := SigningInput(parts[0], parts[1]);
    !WasIssued(c, issued, input) && ClassicalValid(s, key, input, c.decodeBytes(parts[2])) == Ok(true)
  }

  ghost predicate MlForged(c: Codec, s: Scheme, key: SigningKey, a: Algorithm, issued: Issued, parts: seq<string>)
    requires |parts| >= 3
  {
    var input := SigningInput(parts[0], parts[1]);
    !WasIssued(c, issued, input) && s.mlVerify(a, key.material.pqPublicKey, input, c.decodeBytes(parts[|parts| - 1]))
  }

  ghost predicate EdForged(c: Codec, s: Scheme, key: SigningKey, issued: Issued, parts: seq<string>)
    requires |parts| >= 3
  {
    var input := SigningInput(parts[0], parts[1]);
    !WasIssued(c, issued, input) && s.edVerify(key.material.publicKey, input, c.decodeBytes(parts[2]))
  }

  /** The token is a forgery: against a hybrid key, of both signatures. */
  ghost predicate Forged(c: Codec, s: Scheme, key: SigningKey, issued: Issued, token: string) {
    var parts := Split(token);
    && |parts| == Arity(key.algorithm)
    && if IsHybrid(key.algorithm) then
         ClassicalForged(c, s, key, issued, parts) && MlForged(c, s, key, MlDsa65, issued, parts)
       else if IsPurePq(key.algorithm) then MlForged(c, s, key, key.algorithm, issued, parts)
       else EdForged(c, s, key, issued, parts)
  }

  /**
   * Authenticity: every accepted string either carries claims that were issued, under a header naming the key's
   * algorithm, or is itself a forgery: its own signature verifies over first two segments that were never issued.
   * Against a hybrid key both of its signatures must be forged.
   */
  lemma {:induction false} AcceptedIsIssuedOrForged(c: Codec, s: Scheme, token: string, key: SigningKey,
                                                    vo: VerifyOptions, now: int, claims: Claims, issued: Issued)
    requires LawfulCodec(c) && IsManual(key.algorithm)
    requires VerifyToken(c, s, token, key, vo, now) == Ok(claims)
    ensures (exists h :: (h, claims) in issued && h.alg == AlgName(key.algorithm)) || Forged(c, s, key, issued, token)
  {
    hide CheckClaims, Split, Join, DerSignature.JoseToDer;
    var parts := Split(token);
    JoinSplit(token);
    var input := SigningInput(parts[0], parts[1]);
    if WasIssued(c, issued, input) {
      var h, m :| (h, m) in issued && input == SigningInput(c.encodeHeader(h), c.encodeClaims(m));
      SameSegments(parts[0], parts[1], c.encodeHeader(h), c.encodeClaims(m));
    }
  }

  /** Two dot-free segments can be read off their signing input. */
  lemma {:induction false} SameSegments(a: string, b: string, c: string, d: string)
    requires NoDot(a) && NoDot(b) && NoDot(c) && NoDot(d) && SigningInput(a, b) == SigningInput(c, d)
    ensures a == c && b == d
  {
    SplitJoin([a, b]);
    SplitJoin([c, d]);
    assert [a, b][1..] == [b] && [c, d][1..] == [d];
    assert Join([a, b]) == SigningInput(a, b) && Join([c, d]) == SigningInput(c, d);
    assert [a, b] == [c, d];
    assert [a, b][0] == [c, d][0] && [a, b][1] == [c, d][1];
  }

  // ---------------------------------------------------------------------------
  // Through the key store
  // ---------------------------------------------------------------------------

  /** `KeyStore.verify`: the key is looked up by the kid the token names. */
  function StoreVerify(c: Codec, s: Scheme, keys: seq<SigningKey>, token: string, vo: VerifyOptions, now: int)
    : Result<Claims, JwtError>
    requires forall k :: k in keys ==> IsManual(k.algorithm)
  {
    var parts := Split(token);
    if parts[0] == "" then Err(Malformed)
    else
      match c.decodeHeader(parts[0])
      case None => Err(InvalidToken)
      case Some(header) =>
        match ByKid(keys, header.kid, now)
        case None => Err(UnknownKid)
        case Some(key) => VerifyToken(c, s, token, key, vo, now)
  }

  /**
   * The store accepts any string at all if and only if one of its keys, unexpired and not revoked, has the kid the
   * first segment names and accepts the string.
   */
  lemma {:induction false} StoreAcceptsIff(c: Codec, s: Scheme, keys: seq<SigningKey>, token: string,
                                           vo: VerifyOptions, now: int, claims: Claims)
    requires UniqueKids(keys) && forall k :: k in keys ==> IsManual(k.algorithm)
    ensures
      var header := c.decodeHeader(Split(token)[0]);
      StoreVerify(c, s, keys, token, vo, now) == Ok(claims) <==>
        && Split(token)[0] != "" && header.Some?
        && exists k :: k in keys && k.kid == header.value.kid && k.status != Revoked && now < k.expiresAt
                       && VerifyToken(c, s, token, k, vo, now) == Ok(claims)
  {
    hide VerifyToken, Split, ByKid, UniqueKids;
    var header := c.decodeHeader(Split(token)[0]);
    if header.Some? {
      var found := ByKid(keys, header.value.kid, now);
      if found.Some? { KeyStore.AcceptedIff(keys, found.value, header.value.kid, now); }
      forall k | k in keys && k.kid == header.value.kid && k.status != Revoked && now < k.expiresAt
        ensures found == Some(k)
      {
        KeyStore.AcceptedIff(keys, k, header.value.kid, now);
      }
    }
  }

  /**
   * A token signed with a key, presented to any later store: unknown if no key of its kid is accepted any more;
   * verified, up to the claim checks, by an accepted key of the same algorithm and material, whatever else has
   * happened to the store; refused by a key of another algorithm. Whatever key accepts it, the claims are the signed
   * ones.
   */
  lemma {:induction false} StoreVerifyOfSign(c: Codec, s: Scheme, payload: Claims, key: SigningKey, so: SignOptions,
                                             signedAt: int, later: seq<SigningKey>, vo: VerifyOptions, now: int)
    requires LawfulCodec(c) && MatchingKey(s, key) && IsManual(key.algorithm)
    requires forall k :: k in later ==> IsManual(k.algorithm)
    ensures
      var token, claims := SignToken(c, s, payload, key, so, signedAt), ClaimsWithTime(payload, so, signedAt);
      && token.Ok?
      && var r := StoreVerify(c, s, later, token.value, vo, now);
         && (r.Ok? ==> r.value == claims)
         && match ByKid(later, key.kid, now)
            case None => r == Err(UnknownKid)
            case Some(k) =>
              && (k.algorithm != key.algorithm ==> r.Err?)
              && (k.algorithm == key.algorithm && k.material == key.material ==>
                    r == match CheckClaims(claims, vo, now) case Ok(_) => Ok(claims) case Err(e) => Err(e))
  {
    hide Signatures, ClaimsWithTime, EncodeAll, VerifyToken, SignToken, CheckClaims, Split, Find;
    SignedSegments(c, s, payload, key, so, signedAt);
    if ByKid(later, key.kid, now).Some? {
      var k := ByKid(later, key.kid, now).value;
      OnlySignedClaims(c, s, payload, key, so, signedAt, k, vo, now);
      if k.algorithm != key.algorithm {
        OtherAlgorithmRefuses(c, s, payload, key, so, signedAt, k, vo, now);
      } else if k.material == key.material {
        SameToken(c, s, payload, key, k, so, signedAt);
        VerifyOfSign(c, s, payload, k, so, signedAt, vo, now);
      }
    }
  }

  /** Whatever key accepts a signed token, it returns the signed claims. */
  lemma {:induction false} OnlySignedClaims(c: Codec, s: Scheme, payload: Claims, key: SigningKey, so: SignOptions,
                                            signedAt: int, other: SigningKey, vo: VerifyOptions, now: int)
    requires LawfulCodec(c) && MatchingKey(s, key) && IsManual(key.algorithm) && IsManual(other.algorithm)
    ensures
      var token := SignToken(c, s, payload, key, so, signedAt);
      && token.Ok?
      && var r := VerifyToken(c, s, token.value, other, vo, now);
         r.Ok? ==> r.value == ClaimsWithTime(payload, so, signedAt)
  {
    hide Signatures, MatchingKey, ClaimsWithTime, EncodeAll, SignaturesValid, SignToken, CheckClaims, Split;
    SignedSegments(c, s, payload, key, so, signedAt);
  }

  /** A token depends on kid, algorithm and material only, not on the key's state. */
  lemma {:induction false} SameToken(c: Codec, s: Scheme, payload: Claims, a: SigningKey, b: SigningKey,
                                     so: SignOptions, nowMs: int)
    requires a.kid == b.kid && a.algorithm == b.algorithm && a.material == b.material && IsManual(a.algorithm)
    ensures SignToken(c, s, payload, a, so, nowMs) == SignToken(c, s, payload, b, so, nowMs)
    ensures MatchingKey(s, a) <==> MatchingKey(s, b)
  {
  }
}
