/**
 * Authenticator data and the attestation object around it (packages/crypto/src/webauthn.ts; section 6.1 of
 * W3C Web Authentication).
 */
module AuthenticatorData {
  import opened Wrappers
  import opened Bytes
  import opened Cbor
  import opened BitGroups

  /** The error of `writeUInt32BE` and `writeUInt16BE` for a number that does not fit. */
  datatype LayoutError = RangeError

  datatype AttestedCredential = AttestedCredential(aaguid: seq<Byte>, credentialId: seq<Byte>, publicKey: seq<Byte>)

  datatype AuthData = AuthData(
    rpIdHash: seq<Byte>,
    flags: Num,
    signCount: seq<Byte>,
    attested: Option<AttestedCredential>)

  function UInt16BE(n: nat): (s: seq<Byte>)
    requires n < 0x1_0000
    ensures |s| == 2
  {
    [n / 256, n % 256]
  }

  function UInt32BE(n: nat): (s: seq<Byte>)
    requires n < 0x1_0000_0000
    ensures |s| == 4
  {
    [n / 0x100_0000, n / 0x1_0000 % 256, n / 256 % 256, n % 256]
  }

  /** The layout; the length of the relying-party hash is not checked, and flags are reduced to a byte. */
  function Build(rpIdHash: seq<Byte>, flags: nat, signCount: nat, credentialId: seq<Byte>, publicKey: seq<Byte>)
    : Result<seq<Byte>, LayoutError>
  {
    if signCount >= 0x1_0000_0000 || |credentialId| >= 0x1_0000 then Err(RangeError)
    else
      var attested := Zeros(16) + UInt16BE(|credentialId|) + credentialId + publicKey;
      Ok(rpIdHash + [flags % 256] + UInt32BE(signCount) + attested)
  }

  predicate HasAttestedFlag(flags: Num) {
    Bits(flags) / 64 % 2 == 1
  }

  function Parse(buf: seq<Byte>): AuthData {
    var flags := At(buf, Num(32));
    var attested :=
      if HasAttestedFlag(flags) then
        var len := 256 * Bits(At(buf, Num(53))) + Bits(At(buf, Num(54)));
        Some(AttestedCredential(
               Subarray(buf, 37, 53),
               Subarray(buf, 55, 55 + len),
               Subarray(buf, 55 + len, |buf|)))
      else None;
    AuthData(Subarray(buf, 0, 32), flags, Subarray(buf, 33, 37), attested)
  }

  /** What the parser should recover. */
  function Expected(rpIdHash: seq<Byte>, flags: nat, signCount: nat, credentialId: seq<Byte>, publicKey: seq<Byte>)
    : AuthData
    requires signCount < 0x1_0000_0000
  {
    var attested :=
      if HasAttestedFlag(Num(flags % 256)) then Some(AttestedCredential(Zeros(16), credentialId, publicKey)) else None;
    AuthData(rpIdHash, Num(flags % 256), UInt32BE(signCount), attested)
  }

  lemma {:induction false} ParseBuild(rpIdHash: seq<Byte>, flags: nat, signCount: nat, credentialId: seq<Byte>,
                                      publicKey: seq<Byte>)
    requires |rpIdHash| == 32 && signCount < 0x1_0000_0000 && |credentialId| < 0x1_0000
    ensures Parse(Build(rpIdHash, flags, signCount, credentialId, publicKey).value)
         == Expected(rpIdHash, flags, signCount, credentialId, publicKey)
  {
    hide UInt32BE, HasAttestedFlag;
    var buf := Build(rpIdHash, flags, signCount, credentialId, publicKey).value;
    var n := |credentialId|;
    assert Subarray(buf, 0, 32) == rpIdHash;
    assert buf[32] == flags % 256;
    assert Subarray(buf, 33, 37) == UInt32BE(signCount);
    assert Subarray(buf, 37, 53) == Zeros(16);
    assert buf[53] == n / 256 && buf[54] == n % 256;
    assert Subarray(buf, 55, 55 + n) == credentialId;
    assert Subarray(buf, 55 + n, |buf|) == publicKey;
  }

  /** Every field is recovered exactly when the relying-party hash has 32 bytes. */
  lemma {:induction false} ParseBuildIff(rpIdHash: seq<Byte>, flags: nat, signCount: nat, credentialId: seq<Byte>,
                                         publicKey: seq<Byte>)
    requires signCount < 0x1_0000_0000 && |credentialId| < 0x1_0000
    ensures
      Parse(Build(rpIdHash, flags, signCount, credentialId, publicKey).value)
        == Expected(rpIdHash, flags, signCount, credentialId, publicKey) <==>
      |rpIdHash| == 32
  {
    var buf := Build(rpIdHash, flags, signCount, credentialId, publicKey).value;
    if |rpIdHash| == 32 {
      ParseBuild(rpIdHash, flags, signCount, credentialId, publicKey);
    } else {
      assert |buf| >= |rpIdHash| + 23;
      assert |Subarray(buf, 0, 32)| != |rpIdHash|;
    }
  }

  lemma {:induction false} SignCountValue(n: nat)
    requires n < 0x1_0000_0000
    ensures Value(UInt32BE(n)) == n
  {
    var s := UInt32BE(n);
    assert s[..3][..2] == s[..2] && s[..2][..1] == s[..1] && s[..1][..0] == [];
    assert Value(s[..1]) == s[0] as int && Value(s[..2]) == 256 * Value(s[..1]) + s[1] as int;
    assert Value(s[..3]) == 256 * Value(s[..2]) + s[2] as int;
    assert n / 0x100_0000 * 256 + n / 0x1_0000 % 256 == n / 0x1_0000;
    assert n / 0x1_0000 * 256 + n / 256 % 256 == n / 256;
  }

  /** The flag for attested data is bit 0x40, the second of eight from the top. */
  lemma {:induction false} AttestedFlagIsBit(b: Byte)
    ensures HasAttestedFlag(Num(b)) <==> ToBits(b, 8)[1] == 1
    ensures !HasAttestedFlag(Undefined)
  {
    hide ToBits;
    var n: nat := b;
    HalfBits(n, 8, 1);
    HalfBits(n / 2, 7, 1);
    HalfBits(n / 4, 6, 1);
    HalfBits(n / 8, 5, 1);
    HalfBits(n / 16, 4, 1);
    HalfBits(n / 32, 3, 1);
    HalfBits(n / 64, 2, 1);
    assert n / 2 / 2 == n / 4 && n / 4 / 2 == n / 8 && n / 8 / 2 == n / 16;
    assert n / 16 / 2 == n / 32 && n / 32 / 2 == n / 64;
  }

  /**
   * The layout: hash, flag byte, big-endian counter, sixteen zeros, big-endian length, credential id and public key; an
   * id or counter that does not fit is an error.
   */
  lemma {:induction false} Layout(rpIdHash: seq<Byte>, flags: nat, signCount: nat, credentialId: seq<Byte>,
                                  publicKey: seq<Byte>)
    ensures
      var r := Build(rpIdHash, flags, signCount, credentialId, publicKey);
      && (r.Ok? <==> signCount < 0x1_0000_0000 && |credentialId| < 0x1_0000)
      && (r.Ok? ==>
            var buf, h, n := r.value, |rpIdHash|, |credentialId|;
            && |buf| == h + 23 + n + |publicKey|
            && buf[..h] == rpIdHash
            && buf[h] == flags % 256
            && Value(buf[h + 1..h + 5]) == signCount
            && buf[h + 5..h + 21] == Zeros(16)
            && Value(buf[h + 21..h + 23]) == n
            && buf[h + 23..h + 23 + n] == credentialId
            && buf[h + 23 + n..] == publicKey)
  {
    hide UInt32BE, Value;
    if signCount < 0x1_0000_0000 && |credentialId| < 0x1_0000 {
      var buf, h := Build(rpIdHash, flags, signCount, credentialId, publicKey).value, |rpIdHash|;
      SignCountValue(signCount);
      assert buf[h + 1..h + 5] == UInt32BE(signCount);
      assert buf[h + 21..h + 23] == UInt16BE(|credentialId|);
      ValueOfTwo(UInt16BE(|credentialId|));
    }
  }

  /** Reading the layout back gives the counter's number, and the credential exactly where bit 0x40 is set. */
  lemma {:induction false} ParsedCounter(rpIdHash: seq<Byte>, flags: nat, signCount: nat, credentialId: seq<Byte>,
                                         publicKey: seq<Byte>)
    requires |rpIdHash| == 32 && signCount < 0x1_0000_0000 && |credentialId| < 0x1_0000
    ensures
      var data := Parse(Build(rpIdHash, flags, signCount, credentialId, publicKey).value);
      && Value(data.signCount) == signCount && data.flags == Num(flags % 256)
      && (data.attested.Some? <==> ToBits(flags % 256, 8)[1] == 1)
      && (data.attested.Some? ==>
            data.attested.value.credentialId == credentialId && data.attested.value.publicKey == publicKey)
  {
    hide Value, UInt32BE, Build, HasAttestedFlag;
    ParseBuild(rpIdHash, flags, signCount, credentialId, publicKey);
    SignCountValue(signCount);
    AttestedFlagIsBit(flags % 256);
  }

  /** Data that are too short are not refused: without a flag byte there is a cut-off hash and nothing else. */
  lemma {:induction false} ShortDataParses(buf: seq<Byte>)
    requires |buf| <= 32
    ensures Parse(buf) == AuthData(buf, Undefined, [], None)
  {
    AttestedFlagIsBit(0);
    assert buf[0..|buf|] == buf;
  }

  // ---------------------------------------------------------------------------
  // The attestation object
  // ---------------------------------------------------------------------------

  function AttestationEntries(fmt: seq<Byte>, authData: seq<Byte>): seq<Entry> {
    [Entry(1, fmt, true), Entry(2, [], false), Entry(3, authData, false)]
  }

  function BuildAttestationObject(fmt: seq<Byte>, authData: seq<Byte>): seq<Byte> {
    Encode(AttestationEntries(fmt, authData))
  }

  /**
   * An attestation object around built authenticator data decodes to its own entries only when both the
   * format name and the whole authenticator data are shorter than 24 bytes.
   */
  lemma {:induction false} AttestationRoundTripIff(fmt: seq<Byte>, authData: seq<Byte>)
    ensures
      var r := DecodeMap(BuildAttestationObject(fmt, authData), 0);
      (r.Ok? && r.value.0 == MapOf(AttestationEntries(fmt, authData), map[])) <==> (|fmt| < 24 && |authData| < 24)
  {
    hide Encode, DecodeMap, MapOf;
    var entries := AttestationEntries(fmt, authData);
    assert ShortValues(entries) <==> (|fmt| < 24 && |authData| < 24) by {
      assert entries[0].value == fmt && entries[1].value == [] && entries[2].value == authData;
    }
    MapRoundTripIff([], entries, []);
    assert [] + Encode(entries) + [] == Encode(entries);
  }

  /** So no attestation object with a proper 32-byte hash decodes to what was put in. */
  lemma {:induction false} ProperAttestationIsLost(fmt: seq<Byte>, rpIdHash: seq<Byte>, flags: nat, signCount: nat,
                                                   credentialId: seq<Byte>, publicKey: seq<Byte>)
    requires |rpIdHash| == 32 && signCount < 0x1_0000_0000 && |credentialId| < 0x1_0000
    ensures
      var authData := Build(rpIdHash, flags, signCount, credentialId, publicKey).value;
      var r := DecodeMap(BuildAttestationObject(fmt, authData), 0);
      !(r.Ok? && r.value.0 == MapOf(AttestationEntries(fmt, authData), map[]))
  {
    hide BuildAttestationObject, DecodeMap, MapOf;
    AttestationRoundTripIff(fmt, Build(rpIdHash, flags, signCount, credentialId, publicKey).value);
  }
}
