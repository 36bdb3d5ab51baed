/**
 * ECDSA signatures between the raw r || s form and DER: the codec of packages/crypto/src/jwt.ts and the
 * second, independently written encoder of packages/crypto/src/webauthn.ts.
 */
module DerSignature {
  import opened Wrappers
  import opened Bytes
  import opened ByteValues
  import opened ModArith

  datatype SignatureError = InvalidSignature

  /** INTEGER with the given contents octets; the length byte is reduced modulo 256, as a Buffer does. */
  function Integer(contents: seq<Byte>): (der: seq<Byte>)
    ensures |der| == |contents| + 2
  {
    [2, |contents| % 256] + contents
  }

  // ---------------------------------------------------------------------------
  // jwt.ts
  // ---------------------------------------------------------------------------

  /** Drops zero bytes as long as the next byte still reads as non-negative. */
  function TrimSigned(v: seq<Byte>): (t: seq<Byte>)
    ensures |t| <= |v| && (v != [] ==> t != [])
  {
    if |v| > 1 && v[0] == 0 && v[1] < 128 then TrimSigned(v[1..]) else v
  }

  function JwtContents(v: seq<Byte>): (c: seq<Byte>)
    ensures |c| <= |v| + 1
  {
    var t := TrimSigned(v);
    if |t| > 0 && t[0] < 128 then t else [0] + t
  }

  method DerInteger(value: seq<Byte>) returns (out: seq<Byte>)
    ensures out == Integer(JwtContents(value))
  {
    hide TrimSigned;
    var start := 0;
    while start < |value| - 1 && value[start] == 0 && value[start + 1] < 128
      invariant 0 <= start <= |value|
      invariant TrimSigned(value[start..]) == TrimSigned(value)
    {
      TrimStep(value, start);
      start := start + 1;
    }
    TrimStep(value, start);
    var trimmed := value[start..];
    var positive := if |trimmed| > 0 && trimmed[0] < 128 then trimmed else [0] + trimmed;
    out := [2, |positive| % 256] + positive;
  }

  lemma {:induction false} TrimStep(v: seq<Byte>, i: nat)
    requires i <= |v|
    ensures TrimSigned(v[i..]) == if |v| - i > 1 && v[i] == 0 && v[i + 1] < 128 then TrimSigned(v[i + 1..]) else v[i..]
  {
    if |v| - i > 1 { assert v[i..][1..] == v[i + 1..]; }
  }

  /** SEQUENCE around a body, with a one-byte or a 0x81-prefixed length. */
  function Sequence(body: seq<Byte>): seq<Byte> {
    if |body| < 0x80 then [0x30, |body|] + body else [0x30] + [0x81, |body| % 256] + body
  }

  function JoseToDer(raw: seq<Byte>): Result<seq<Byte>, SignatureError> {
    if |raw| != 64 then Err(InvalidSignature)
    else Ok(Sequence(Integer(JwtContents(raw[..32])) + Integer(JwtContents(raw[32..]))))
  }

  /** A sign byte in front of 32 bytes is dropped. */
  function StripSign(octets: seq<Byte>): seq<Byte> {
    if |octets| == 33 && octets[0] == 0 then octets[1..] else octets
  }

  /**
   * The INTEGERs from offset on, at most two. A tag that is the last byte of the buffer has no length
   * byte: it yields an empty integer, and the offset that results ends the loop.
   */
  function ReadIntegers(der: seq<Byte>, offset: nat, ints: seq<seq<Byte>>): (r: Result<seq<seq<Byte>>, SignatureError>)
    requires forall k :: 0 <= k < |ints| ==> |ints[k]| <= 32
    ensures r.Ok? ==> forall k :: 0 <= k < |r.value| ==> |r.value[k]| <= 32
    decreases |der| - offset
  {
    if offset >= |der| || |ints| >= 2 || der[offset] != 2 then Ok(ints)
    else if offset + 1 == |der| then Ok(ints + [[]])
    else
      var len := der[offset + 1];
      var octets := StripSign(Subarray(der, offset + 2, offset + 2 + len as int));
      if |octets| > 32 then Err(InvalidSignature)
      else ReadIntegers(der, offset + 2 + len as int, ints + [octets])
  }

  function Padded32(v: seq<Byte>): (r: seq<Byte>)
    requires |v| <= 32
    ensures |r| == 32
  {
    Zeros(32 - |v|) + v
  }

  function BodyOffset(der: seq<Byte>): nat
    requires |der| >= 2
  {
    if der[1] == 0x81 then 3
    else if der[1] >= 128 then 2 + (der[1] % 128) as int
    else 2
  }

  function DerToJose(der: seq<Byte>): Result<seq<Byte>, SignatureError> {
    if |der| < 8 || der[0] != 0x30 then Err(InvalidSignature)
    else
      match ReadIntegers(der, BodyOffset(der), [])
      case Err(e) => Err(e)
      case Ok(ints) => if |ints| != 2 then Err(InvalidSignature) else Ok(Padded32(ints[0]) + Padded32(ints[1]))
  }

  method DecodeDer(der: seq<Byte>) returns (r: Result<seq<Byte>, SignatureError>)
    ensures r == DerToJose(der)
  {
    hide Subarray, Padded32;
    if |der| < 8 || der[0] != 0x30 { return Err(InvalidSignature); }
    var ints: seq<seq<Byte>> := [];
    var offset: nat := 2;
    if der[1] == 0x81 {
      offset := 3;
    } else if der[1] >= 128 {
      offset := 2 + (der[1] % 128) as int;
    }
    while offset < |der| && |ints| < 2
      invariant forall k :: 0 <= k < |ints| ==> |ints[k]| <= 32
      invariant ReadIntegers(der, offset, ints) == ReadIntegers(der, BodyOffset(der), [])
      decreases |der| - offset
    {
      if der[offset] != 2 { break; }
      if offset + 1 == |der| {
        ints := ints + [[]];
        offset := |der|;
        break;
      }
      var len := der[offset + 1];
      var octets := Subarray(der, offset + 2, offset + 2 + len as int);
      if |octets| == 33 && octets[0] == 0 { octets := octets[1..]; }
      if |octets| > 32 { return Err(InvalidSignature); }
      ints := ints + [octets];
      offset := offset + 2 + len as int;
    }
    if |ints| != 2 { return Err(InvalidSignature); }
    r := Ok(Padded32(ints[0]) + Padded32(ints[1]));
  }

  // ---------------------------------------------------------------------------
  // webauthn.ts
  // ---------------------------------------------------------------------------

  /** Drops all leading zero bytes but the last byte. */
  function TrimZeros(v: seq<Byte>): (t: seq<Byte>)
    ensures |t| <= |v| && (v != [] ==> t != [])
  {
    if |v| > 1 && v[0] == 0 then TrimZeros(v[1..]) else v
  }

  function WrapContents(v: seq<Byte>): seq<Byte> {
    if |v| > 0 && v[0] >= 128 then [0] + v else v
  }

  method TrimLeadingZero(buf: seq<Byte>) returns (t: seq<Byte>)
    ensures t == TrimZeros(buf)
  {
    var start := 0;
    while start < |buf| - 1 && buf[start] == 0
      invariant 0 <= start <= |buf|
      invariant TrimZeros(buf[start..]) == TrimZeros(buf)
    {
      assert buf[start..][1..] == buf[start + 1..];
      start := start + 1;
    }
    t := buf[start..];
  }

  method RawToDerSignature(raw: seq<Byte>) returns (der: seq<Byte>)
    ensures der == RawToDer(raw)
  {
    var r := TrimLeadingZero(Subarray(raw, 0, 32));
    var s := TrimLeadingZero(Subarray(raw, 32, 64));
    var rDer, sDer := Integer(WrapContents(r)), Integer(WrapContents(s));
    der := [0x30, |rDer| + |sDer|] + rDer + sDer;
  }

  /** The input length is not checked: missing bytes shorten r or s. */
  function RawToDer(raw: seq<Byte>): seq<Byte> {
    var r := Integer(WrapContents(TrimZeros(Subarray(raw, 0, 32))));
    var s := Integer(WrapContents(TrimZeros(Subarray(raw, 32, 64))));
    [0x30, |r| + |s|] + r + s
  }

  // ---------------------------------------------------------------------------
  // Both encoders write the minimal form
  // ---------------------------------------------------------------------------

  lemma {:induction false} TrimSignedKeepsValue(v: seq<Byte>)
    requires v != []
    ensures Value(TrimSigned(v)) == Value(v)
    ensures var t := TrimSigned(v); |t| > 1 && t[0] == 0 ==> t[1] >= 128
  {
    if |v| > 1 && v[0] == 0 && v[1] < 128 {
      TrimSignedKeepsValue(v[1..]);
      LeadingZero(v);
    }
  }

  lemma {:induction false} JwtContentsMinimal(v: seq<Byte>)
    requires v != []
    ensures Minimal(JwtContents(v)) && Value(JwtContents(v)) == Value(v)
  {
    TrimSignedKeepsValue(v);
    var t := TrimSigned(v);
    LeadingZero([0] + t);
    assert ([0] + t)[1..] == t;
  }

  lemma {:induction false} TrimZerosKeepsValue(v: seq<Byte>)
    requires v != []
    ensures Value(TrimZeros(v)) == Value(v) && NoLeadingZero(TrimZeros(v))
  {
    if |v| > 1 && v[0] == 0 {
      TrimZerosKeepsValue(v[1..]);
      LeadingZero(v);
    }
  }

  lemma {:induction false} WrapContentsMinimal(v: seq<Byte>)
    requires v != []
    ensures Minimal(WrapContents(TrimZeros(v))) && Value(WrapContents(TrimZeros(v))) == Value(v)
  {
    TrimZerosKeepsValue(v);
    var t := TrimZeros(v);
    LeadingZero([0] + t);
    assert ([0] + t)[1..] == t;
  }

  /** The first encoder takes exactly 64 bytes, and of these the two produce the same bytes. */
  lemma {:induction false} EncodersAgree(raw: seq<Byte>)
    ensures JoseToDer(raw) == if |raw| == 64 then Ok(RawToDer(raw)) else Err(InvalidSignature)
  {
    if |raw| == 64 { SixtyFourAgree(raw); }
  }

  lemma {:induction false} SixtyFourAgree(raw: seq<Byte>)
    requires |raw| == 64
    ensures JoseToDer(raw) == Ok(RawToDer(raw))
  {
    var r, s := raw[..32], raw[32..];
    assert Subarray(raw, 0, 32) == r && Subarray(raw, 32, 64) == s;
    JwtContentsMinimal(r);
    WrapContentsMinimal(r);
    MinimalUnique(JwtContents(r), WrapContents(TrimZeros(r)));
    JwtContentsMinimal(s);
    WrapContentsMinimal(s);
    MinimalUnique(JwtContents(s), WrapContents(TrimZeros(s)));
    var a, b := Integer(JwtContents(r)), Integer(JwtContents(s));
    assert [0x30, |a + b|] + (a + b) == [0x30, |a| + |b|] + a + b;
  }

  // ---------------------------------------------------------------------------
  // Round trips
  // ---------------------------------------------------------------------------

  /** Contents octets whose number fits in 32 bytes. */
  ghost predicate Fits(c: seq<Byte>) {
    |c| <= 33 && (|c| == 33 ==> c[0] == 0)
  }

  /** SEQUENCE { INTEGER r, INTEGER s } with the given contents octets. */
  function Signature(r: seq<Byte>, s: seq<Byte>): seq<Byte> {
    Sequence(Integer(r) + Integer(s))
  }

  /** The signatures in distinguished encoding: minimal non-negative INTEGERs below 2^256. */
  ghost predicate Canonical(der: seq<Byte>) {
    exists r, s :: Minimal(r) && Minimal(s) && Fits(r) && Fits(s) && der == Signature(r, s)
  }

  /** Fits means a number below 256^32. */
  lemma {:induction false} FitsIff(c: seq<Byte>)
    requires Minimal(c)
    ensures Fits(c) <==> Value(c) < Pow(256, 32)
  {
    MagnitudeBound(c, 32);
  }

  lemma {:induction false} MagnitudeBound(c: seq<Byte>, m: nat)
    requires Minimal(c) && m >= 1
    ensures (|c| <= m + 1 && (|c| == m + 1 ==> c[0] == 0)) <==> Value(c) < Pow(256, m)
  {
    var d := Magnitude(c);
    if |c| > 1 && c[0] == 0 { LeadingZero(c); }
    ValueBound(d);
    if |d| <= m {
      PowMonotone(|d|, m);
    } else {
      ValueFront(d);
      PowMonotone(m, |d| - 1);
      MulAtLeast(d[0] as int, Pow(256, |d| - 1));
    }
  }

  lemma {:induction false} JwtContentsFit(v: seq<Byte>)
    requires |v| == 32
    ensures Fits(JwtContents(v))
  {
  }

  lemma {:induction false} ReadOne(der: seq<Byte>, c: seq<Byte>, offset: nat, ints: seq<seq<Byte>>)
    requires c != [] && Fits(c) && |ints| < 2
    requires forall k :: 0 <= k < |ints| ==> |ints[k]| <= 32
    requires offset + 2 + |c| <= |der| && der[offset..offset + 2 + |c|] == Integer(c)
    ensures |StripSign(c)| <= 32
    ensures ReadIntegers(der, offset, ints) == ReadIntegers(der, offset + 2 + |c|, ints + [StripSign(c)])
  {
    assert der[offset] == der[offset..offset + 2 + |c|][0];
    assert der[offset + 1] == der[offset..offset + 2 + |c|][1];
    assert der[offset + 2..offset + 2 + |c|] == der[offset..offset + 2 + |c|][2..];
  }

  /** Reading a signature back gives its two numbers, padded to 32 bytes. */
  lemma {:induction false} DecodeSignature(r: seq<Byte>, s: seq<Byte>)
    requires r != [] && s != [] && Fits(r) && Fits(s)
    ensures |StripSign(r)| <= 32 && |StripSign(s)| <= 32
    ensures DerToJose(Signature(r, s)) == Ok(Padded32(StripSign(r)) + Padded32(StripSign(s)))
  {
    hide Signature, Sequence, Integer, StripSign, ReadIntegers, Padded32;
    var der := Signature(r, s);
    SignatureLayout(r, s, der);
    ReadOne(der, r, 2, []);
    assert [] + [StripSign(r)] == [StripSign(r)];
    ReadOne(der, s, 4 + |r|, [StripSign(r)]);
    assert [StripSign(r)] + [StripSign(s)] == [StripSign(r), StripSign(s)];
    ReadTwo(der, |der|, StripSign(r), StripSign(s));
  }

  lemma {:induction false} SignatureLayout(r: seq<Byte>, s: seq<Byte>, der: seq<Byte>)
    requires r != [] && s != [] && |r| <= 33 && |s| <= 33 && der == Signature(r, s)
    ensures |der| == 6 + |r| + |s| && der[0] == 0x30 && der[1] < 0x80
    ensures der[2..4 + |r|] == Integer(r)
    ensures der[4 + |r|..6 + |r| + |s|] == Integer(s)
  {
  }

  lemma {:induction false} ReadTwo(der: seq<Byte>, offset: nat, a: seq<Byte>, b: seq<Byte>)
    requires |a| <= 32 && |b| <= 32
    ensures ReadIntegers(der, offset, [a, b]) == Ok([a, b])
  {
  }

  lemma {:induction false} PaddedValue(c: seq<Byte>)
    requires Fits(c)
    ensures |StripSign(c)| <= 32 && Value(Padded32(StripSign(c))) == Value(c)
  {
    LeadingZeros(32 - |StripSign(c)|, StripSign(c));
    if |c| == 33 { LeadingZero(c); }
  }

  /** Decoding an encoded signature gives the 64 bytes back. */
  lemma {:induction false} DecodeEncode(raw: seq<Byte>)
    requires |raw| == 64
    ensures JoseToDer(raw).Ok? && DerToJose(JoseToDer(raw).value) == Ok(raw)
  {
    var r, s := raw[..32], raw[32..];
    var cr, cs := JwtContents(r), JwtContents(s);
    JwtContentsMinimal(r);
    JwtContentsMinimal(s);
    JwtContentsFit(r);
    JwtContentsFit(s);
    DecodeSignature(cr, cs);
    PaddedValue(cr);
    PaddedValue(cs);
    ValueInjective(Padded32(StripSign(cr)), r);
    ValueInjective(Padded32(StripSign(cs)), s);
    assert raw == r + s;
  }

  /** What the encoder writes is always in distinguished encoding. */
  lemma {:induction false} EncodedIsCanonical(raw: seq<Byte>)
    requires |raw| == 64
    ensures Canonical(JoseToDer(raw).value)
  {
    var r, s := raw[..32], raw[32..];
    JwtContentsMinimal(r);
    JwtContentsMinimal(s);
    JwtContentsFit(r);
    JwtContentsFit(s);
    assert JoseToDer(raw).value == Signature(JwtContents(r), JwtContents(s));
  }

  lemma {:induction false} ReencodeContents(c: seq<Byte>)
    requires Minimal(c) && Fits(c)
    ensures |StripSign(c)| <= 32 && JwtContents(Padded32(StripSign(c))) == c
  {
    PaddedValue(c);
    JwtContentsMinimal(Padded32(StripSign(c)));
    MinimalUnique(JwtContents(Padded32(StripSign(c))), c);
  }

  /** Encoding a decoded signature gives the DER back exactly for signatures in distinguished encoding. */
  lemma {:induction false} EncodeDecodeIff(der: seq<Byte>)
    ensures (DerToJose(der).Ok? && JoseToDer(DerToJose(der).value) == Ok(der)) <==> Canonical(der)
  {
    if DerToJose(der).Ok? && JoseToDer(DerToJose(der).value) == Ok(der) {
      EncodedIsCanonical(DerToJose(der).value);
    }
    if Canonical(der) {
      var r, s :| Minimal(r) && Minimal(s) && Fits(r) && Fits(s) && der == Signature(r, s);
      DecodeSignature(r, s);
      ReencodeContents(r);
      ReencodeContents(s);
      var raw := Padded32(StripSign(r)) + Padded32(StripSign(s));
      assert raw[..32] == Padded32(StripSign(r)) && raw[32..] == Padded32(StripSign(s));
    }
  }

  // ---------------------------------------------------------------------------
  // Everything the decoder accepts
  // ---------------------------------------------------------------------------

  /** Where the contents of a data value begin: behind the tag and the length octets (section 8.1.3 of ITU-T X.690). */
  function ContentsStart(der: seq<Byte>): nat
    requires |der| >= 2
  {
    2 + (if der[1] < 128 then 0 else der[1] as int - 128)
  }

  /**
   * The INTEGER at o, with its contents and where it ends. Contents are cut off where the buffer ends; a tag without a
   * length byte counts as an empty INTEGER that nothing follows.
   */
  function IntegerAt(der: seq<Byte>, o: nat): Option<(seq<Byte>, nat)> {
    if o >= |der| || der[o] != 2 then None
    else if o + 1 == |der| then Some(([], |der|))
    else
      var end: nat := o + 2 + der[o + 1] as int;
      Some((der[o + 2..Max(o + 2, Min(end, |der|))], end))
  }

  function Max(a: nat, b: nat): nat {
    if a >= b then a else b
  }

  /** The fixed-width form of two numbers. */
  ghost predicate Spells(raw: seq<Byte>, r: seq<Byte>, s: seq<Byte>) {
    |raw| == 64 && Value(raw[..32]) == Value(r) && Value(raw[32..]) == Value(s)
  }

  /**
   * For every byte string: it is accepted, as these 64 bytes, if and only if it has at least eight bytes, begins with
   * the SEQUENCE tag, and holds two INTEGERs of these values behind its length octets, each of at most 32 bytes after
   * one sign byte. The length of the sequence, what follows the INTEGERs, and a cut-off end are not looked at.
   */
  lemma {:induction false} AcceptedIff(der: seq<Byte>, raw: seq<Byte>)
    ensures DerToJose(der) == Ok(raw) <==>
      && |der| >= 8 && der[0] == 0x30
      && var first := IntegerAt(der, ContentsStart(der));
         && first.Some? && Fits(first.value.0)
         && var second := IntegerAt(der, first.value.1);
            && second.Some? && Fits(second.value.0)
            && Spells(raw, first.value.0, second.value.0)
  {
    hide ReadIntegers, IntegerAt, StripSign, Fits, Padded32;
    if |der| >= 8 && der[0] == 0x30 {
      var first := IntegerAt(der, BodyOffset(der));
      ReadNext(der, BodyOffset(der), []);
      if first.Some? && Fits(first.value.0) {
        var (r, m) := first.value;
        var second := IntegerAt(der, m);
        assert [] + [StripSign(r)] == [StripSign(r)];
        ReadNext(der, m, [StripSign(r)]);
        if second.Some? && Fits(second.value.0) {
          var (s, n) := second.value;
          assert [StripSign(r)] + [StripSign(s)] == [StripSign(r), StripSign(s)];
          ReadTwo(der, n, StripSign(r), StripSign(s));
          SpelledOnce(raw, r, s);
        }
      }
    }
  }

  /** One more round of the decoder's loop. */
  lemma {:induction false} ReadNext(der: seq<Byte>, o: nat, ints: seq<seq<Byte>>)
    requires |ints| < 2 && forall k :: 0 <= k < |ints| ==> |ints[k]| <= 32
    ensures
      var next := IntegerAt(der, o);
      && (next.None? ==> ReadIntegers(der, o, ints) == Ok(ints))
      && (next.Some? && !Fits(next.value.0) ==> ReadIntegers(der, o, ints).Err?)
      && (next.Some? && Fits(next.value.0) ==>
            && |StripSign(next.value.0)| <= 32
            && ReadIntegers(der, o, ints) == ReadIntegers(der, next.value.1, ints + [StripSign(next.value.0)]))
  {
  }

  lemma {:induction false} SpelledOnce(raw: seq<Byte>, r: seq<Byte>, s: seq<Byte>)
    requires Fits(r) && Fits(s)
    ensures |StripSign(r)| <= 32 && |StripSign(s)| <= 32
    ensures raw == Padded32(StripSign(r)) + Padded32(StripSign(s)) <==> Spells(raw, r, s)
  {
    PaddedValue(r);
    PaddedValue(s);
    var a, b := Padded32(StripSign(r)), Padded32(StripSign(s));
    assert (a + b)[..32] == a && (a + b)[32..] == b;
    if Spells(raw, r, s) {
      ValueInjective(raw[..32], a);
      ValueInjective(raw[32..], b);
      assert raw == raw[..32] + raw[32..];
    }
  }
}
