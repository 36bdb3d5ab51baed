/**
 * The CBOR subset of packages/crypto/src/webauthn.ts: maps from unsigned integers to byte or text strings,
 * encoded and decoded at byte level, including what reading past the end of a buffer yields.
 */
module Cbor {
  import opened Wrappers
  import opened Bytes

  /** A number, or the `undefined` of a read past the end (`NaN` once it enters arithmetic). */
  datatype Num = Num(n: nat) | Undefined

  datatype CborError = UIntTooLarge | UnsupportedUIntSize

  datatype Entry = Entry(key: nat, value: seq<Byte>, isText: bool)

  type CborMap = map<Num, seq<Byte>>

  // ---------------------------------------------------------------------------
  // Encoding
  // ---------------------------------------------------------------------------

  function EncodeUInt(value: int): Result<seq<Byte>, CborError> {
    if value < 24 then Ok([value % 256])
    else if value < 256 then Ok([24, value])
    else if value < 65536 then Ok([25, value / 256, value % 256])
    else Err(UIntTooLarge)
  }

  function EncodeInt(value: int): Result<seq<Byte>, CborError> {
    if 0 <= value < 24 then Ok([value]) else EncodeUInt(value)
  }

  /** A byte string (tag 0x40) or text string (tag 0x60); from 24 bytes on, marker 24 and two length bytes. */
  function EncodeString(tag: Byte, v: seq<Byte>): seq<Byte>
    requires tag == 0x40 || tag == 0x60
  {
    if |v| < 24 then [(tag as int + |v|) as Byte] + v
    else [(tag as int + 24) as Byte, |v| / 256 % 256, |v| % 256] + v
  }

  /** The length byte of a long map is reduced modulo 256, as `Buffer.from` does. */
  function MapHeader(n: nat): seq<Byte> {
    if n < 24 then [0xa0 + n] else [0xa0 + 24, n % 256]
  }

  function Concat(parts: seq<(seq<Byte>, seq<Byte>)>): seq<Byte> {
    if parts == [] then [] else parts[0].0 + parts[0].1 + Concat(parts[1..])
  }

  method EncodeMap(entries: seq<(seq<Byte>, seq<Byte>)>) returns (r: seq<Byte>)
    ensures r == MapHeader(|entries|) + Concat(entries)
  {
    r := if |entries| < 24 then [0xa0 + |entries|] else [0xa0 + 24, |entries| % 256];
    for i := 0 to |entries|
      invariant r + Concat(entries[i..]) == MapHeader(|entries|) + Concat(entries)
    {
      var (key, val) := entries[i];
      assert entries[i..][1..] == entries[i + 1..];
      assert r + Concat(entries[i..]) == (r + key + val) + Concat(entries[i + 1..]);
      r := r + key + val;
    }
    assert r + [] == r;
  }

  // ---------------------------------------------------------------------------
  // Decoding
  // ---------------------------------------------------------------------------

  function Add(a: Num, b: Num): Num {
    if a.Num? && b.Num? then Num(a.n + b.n) else Undefined
  }

  /** `buf[pos]` */
  function At(buf: seq<Byte>, pos: Num): Num {
    if pos.Num? && pos.n < |buf| then Num(buf[pos.n]) else Undefined
  }

  /** The operand a bit operation sees: `undefined` counts as 0. */
  function Bits(x: Num): nat {
    if x.Num? then x.n else 0
  }

  /** Value and bytes read. The major type of the first byte is ignored. */
  function DecodeUInt(buf: seq<Byte>, pos: Num): Result<(Num, Num), CborError> {
    var info := Bits(At(buf, pos)) % 32;
    if info < 24 then Ok((Num(info), Num(1)))
    else if info == 24 then Ok((At(buf, Add(pos, Num(1))), Num(2)))
    else if info == 25 then
      Ok((Num(256 * Bits(At(buf, Add(pos, Num(1)))) + Bits(At(buf, Add(pos, Num(2))))), Num(3)))
    else Err(UnsupportedUIntSize)
  }

  /** A bound that is not a number counts as 0. */
  function Slice(buf: seq<Byte>, lo: Num, hi: Num): seq<Byte> {
    Subarray(buf, Bits(lo), Bits(hi))
  }

  function DecodeBytes(buf: seq<Byte>, pos: Num): Result<(seq<Byte>, Num), CborError> {
    match DecodeUInt(buf, pos)
    case Err(e) => Err(e)
    case Ok((len, read)) =>
      Ok((Slice(buf, Add(pos, read), Add(Add(pos, read), len)), Add(read, len)))
  }

  /** One key and its value, added to the map. */
  function DecodeEntry(buf: seq<Byte>, pos: Num, m: CborMap): Result<(CborMap, Num), CborError> {
    match DecodeUInt(buf, pos)
    case Err(e) => Err(e)
    case Ok((key, keyRead)) =>
      match DecodeBytes(buf, Add(pos, keyRead))
      case Err(e) => Err(e)
      case Ok((value, valueRead)) => Ok((m[key := value], Add(Add(pos, keyRead), valueRead)))
  }

  function DecodeEntries(buf: seq<Byte>, pos: Num, n: nat, m: CborMap): Result<(CborMap, Num), CborError>
    decreases n
  {
    if n == 0 then Ok((m, pos))
    else
      match DecodeEntry(buf, pos, m)
      case Err(e) => Err(e)
      case Ok((m', pos')) => DecodeEntries(buf, pos', n - 1, m')
  }

  /** The distance from `offset` to a position behind it. */
  function From(offset: nat, pos: Num): Num {
    if pos.Num? && pos.n >= offset then Num(pos.n - offset) else Undefined
  }

  function Measured(offset: nat, r: Result<(CborMap, Num), CborError>): Result<(CborMap, Num), CborError> {
    match r
    case Err(e) => Err(e)
    case Ok((m, pos)) => Ok((m, From(offset, pos)))
  }

  /** The map and the number of bytes read. A missing entry count means no entries. */
  function DecodeMap(buf: seq<Byte>, offset: nat): Result<(CborMap, Num), CborError> {
    match DecodeUInt(buf, Num(offset))
    case Err(e) => Err(e)
    case Ok((count, read)) => Measured(offset, DecodeEntries(buf, Add(Num(offset), read), Bits(count), map[]))
  }

  method CborDecodeMap(buf: seq<Byte>, offset: nat) returns (r: Result<(CborMap, Num), CborError>)
    ensures r == DecodeMap(buf, offset)
  {
    hide DecodeUInt, DecodeBytes, Bits, Add;
    var header := DecodeUInt(buf, Num(offset));
    if header.Err? { return Err(header.error); }
    var (count, read) := header.value;
    var m: CborMap := map[];
    var pos := Add(Num(offset), read);
    var i := 0;
    while i < Bits(count)
      invariant 0 <= i <= Bits(count)
      invariant Measured(offset, DecodeEntries(buf, pos, Bits(count) - i, m)) == DecodeMap(buf, offset)
    {
      var key := DecodeUInt(buf, pos);
      if key.Err? { return Err(key.error); }
      pos := Add(pos, key.value.1);
      var val := DecodeBytes(buf, pos);
      if val.Err? { return Err(val.error); }
      pos := Add(pos, val.value.1);
      m := m[key.value.0 := val.value.0];
      i := i + 1;
    }
    r := Ok((m, From(offset, pos)));
  }

  // ---------------------------------------------------------------------------
  // Decoding what was encoded
  // ---------------------------------------------------------------------------

  function EncodeKey(e: Entry): (r: seq<Byte>)
    requires e.key < 65536
  {
    EncodeInt(e.key).value
  }

  function EncodeValue(e: Entry): seq<Byte> {
    EncodeString(if e.isText then 0x60 else 0x40, e.value)
  }

  function EncodeEntry(e: Entry): (seq<Byte>, seq<Byte>)
    requires e.key < 65536
  {
    (EncodeKey(e), EncodeValue(e))
  }

  ghost predicate EncodableKeys(entries: seq<Entry>) {
    forall i :: 0 <= i < |entries| ==> entries[i].key < 65536
  }

  ghost predicate ShortValues(entries: seq<Entry>) {
    forall i :: 0 <= i < |entries| ==> |entries[i].value| < 24
  }

  ghost predicate DistinctKeys(entries: seq<Entry>) {
    forall i, j :: 0 <= i < j < |entries| ==> entries[i].key != entries[j].key
  }

  function EncodeEntries(entries: seq<Entry>): seq<(seq<Byte>, seq<Byte>)>
    requires EncodableKeys(entries)
  {
    seq(|entries|, i requires 0 <= i < |entries| => EncodeEntry(entries[i]))
  }

  /** The bytes of all entries, one after the other. */
  function Body(entries: seq<Entry>): seq<Byte>
    requires EncodableKeys(entries)
  {
    if entries == [] then [] else EncodeKey(entries[0]) + EncodeValue(entries[0]) + Body(entries[1..])
  }

  /** The bytes of a whole map. */
  function Encode(entries: seq<Entry>): seq<Byte>
    requires EncodableKeys(entries)
  {
    MapHeader(|entries|) + Body(entries)
  }

  /** Encode is what EncodeMap writes for the encoded keys and values. */
  lemma {:induction false} BodyIsConcat(entries: seq<Entry>)
    requires EncodableKeys(entries)
    ensures Concat(EncodeEntries(entries)) == Body(entries)
  {
    if entries == [] {
    } else {
      assert EncodeEntries(entries)[1..] == EncodeEntries(entries[1..]);
      BodyIsConcat(entries[1..]);
    }
  }

  /** The map the entries stand for: a later entry wins. */
  function MapOf(entries: seq<Entry>, m: CborMap): CborMap {
    if entries == [] then m else MapOf(entries[1..], m[Num(entries[0].key) := entries[0].value])
  }

  lemma {:induction false} KeyAt(buf: seq<Byte>, pos: nat, e: Entry)
    requires e.key < 65536
    requires pos + |EncodeKey(e)| <= |buf| && buf[pos..pos + |EncodeKey(e)|] == EncodeKey(e)
    ensures DecodeUInt(buf, Num(pos)) == Ok((Num(e.key), Num(|EncodeKey(e)|)))
  {
    var enc := EncodeKey(e);
    forall i | 0 <= i < |enc|
      ensures buf[pos + i] == enc[i]
    {
      assert buf[pos..pos + |enc|][i] == enc[i];
    }
    assert buf[pos + 0] == enc[0];
    if e.key >= 24 { assert buf[pos + 1] == enc[1]; }
    if e.key >= 256 { assert buf[pos + 2] == enc[2]; }
  }

  lemma {:induction false} ShortValueAt(buf: seq<Byte>, pos: nat, e: Entry)
    requires |e.value| < 24
    requires pos + |EncodeValue(e)| <= |buf| && buf[pos..pos + |EncodeValue(e)|] == EncodeValue(e)
    ensures DecodeBytes(buf, Num(pos)) == Ok((e.value, Num(|EncodeValue(e)|)))
  {
    var enc := EncodeValue(e);
    assert buf[pos] == buf[pos..pos + |enc|][0] == enc[0];
    assert buf[pos + 1..pos + 1 + |e.value|] == buf[pos..pos + |enc|][1..];
  }

  /** The decoder takes the high length byte of a long value for its whole length. */
  lemma {:induction false} LongValueAt(buf: seq<Byte>, pos: nat, e: Entry)
    requires |e.value| >= 24
    requires pos + |EncodeValue(e)| <= |buf| && buf[pos..pos + |EncodeValue(e)|] == EncodeValue(e)
    ensures DecodeBytes(buf, Num(pos)).Ok? && DecodeBytes(buf, Num(pos)).value.0 != e.value
  {
    var enc := EncodeValue(e);
    assert buf[pos] == buf[pos..pos + |enc|][0] == enc[0];
    assert buf[pos + 1] == buf[pos..pos + |enc|][1] == enc[1];
    var hi := |e.value| / 256 % 256;
    assert hi < |e.value|;
    assert DecodeUInt(buf, Num(pos)) == Ok((Num(hi), Num(2)));
    assert |DecodeBytes(buf, Num(pos)).value.0| <= hi;
  }

  /** A string value round-trips exactly when it is shorter than 24 bytes. */
  lemma {:induction false} StringRoundTripIff(e: Entry)
    ensures DecodeBytes(EncodeValue(e), Num(0)).Ok?
    ensures DecodeBytes(EncodeValue(e), Num(0)).value.0 == e.value <==> |e.value| < 24
  {
    var enc := EncodeValue(e);
    assert enc[0..0 + |enc|] == enc;
    if |e.value| < 24 { ShortValueAt(enc, 0, e); } else { LongValueAt(enc, 0, e); }
  }

  /** The bytes of `entries` stand at `pos`. */
  ghost predicate EncodedAt(buf: seq<Byte>, pos: nat, entries: seq<Entry>)
    requires EncodableKeys(entries)
  {
    var enc := Body(entries);
    pos + |enc| <= |buf| && buf[pos..pos + |enc|] == enc
  }

  /** The first entry stands at pos and the rest behind it. */
  lemma {:induction false} FirstEncodedAt(buf: seq<Byte>, pos: nat, entries: seq<Entry>)
    requires EncodableKeys(entries) && entries != [] && EncodedAt(buf, pos, entries)
    ensures
      var k, v := EncodeKey(entries[0]), EncodeValue(entries[0]);
      && pos + |k| + |v| <= |buf|
      && buf[pos..pos + |k|] == k
      && buf[pos + |k|..pos + |k| + |v|] == v
      && EncodedAt(buf, pos + |k| + |v|, entries[1..])
      && |Body(entries)| == |k| + |v| + |Body(entries[1..])|
  {
    hide EncodeKey, EncodeValue;
    SplitThree(buf, pos, EncodeKey(entries[0]), EncodeValue(entries[0]), Body(entries[1..]));
  }

  lemma {:induction false} RestEncodedAt(buf: seq<Byte>, pos: nat, entries: seq<Entry>) returns (next: nat)
    requires EncodableKeys(entries) && entries != [] && EncodedAt(buf, pos, entries)
    ensures next == pos + |EncodeKey(entries[0])| + |EncodeValue(entries[0])|
    ensures EncodableKeys(entries[1..]) && EncodedAt(buf, next, entries[1..])
  {
    FirstEncodedAt(buf, pos, entries);
    next := pos + |EncodeKey(entries[0])| + |EncodeValue(entries[0])|;
  }

  lemma {:induction false} SplitThree(buf: seq<Byte>, pos: nat, a: seq<Byte>, b: seq<Byte>, c: seq<Byte>)
    requires pos + |a + b + c| <= |buf| && buf[pos..pos + |a + b + c|] == a + b + c
    ensures buf[pos..pos + |a|] == a
    ensures buf[pos + |a|..pos + |a| + |b|] == b
    ensures buf[pos + |a| + |b|..pos + |a| + |b| + |c|] == c
  {
    var here := a + b + c;
    forall i | 0 <= i < |here|
      ensures buf[pos + i] == here[i]
    {
      assert buf[pos..pos + |here|][i] == here[i];
    }
    SameBytes(buf, pos, here, 0, a);
    SameBytes(buf, pos, here, |a|, b);
    SameBytes(buf, pos, here, |a| + |b|, c);
  }

  lemma {:induction false} SameBytes(buf: seq<Byte>, pos: nat, here: seq<Byte>, from: nat, part: seq<Byte>)
    requires pos + |here| <= |buf| && from + |part| <= |here|
    requires forall i :: 0 <= i < |here| ==> buf[pos + i] == here[i]
    requires here[from..from + |part|] == part
    ensures buf[pos + from..pos + from + |part|] == part
  {
    forall i | 0 <= i < |part|
      ensures buf[pos + from + i] == part[i]
    {
      assert buf[pos + (from + i)] == here[from + i] == here[from..from + |part|][i];
    }
  }

  /** Decoding the first of some encoded entries, when its value is short. */
  lemma {:induction false} FirstShort(buf: seq<Byte>, pos: nat, entries: seq<Entry>, m: CborMap)
    requires EncodableKeys(entries) && entries != [] && EncodedAt(buf, pos, entries) && |entries[0].value| < 24
    ensures
      var e, n := entries[0], |EncodeKey(entries[0])| + |EncodeValue(entries[0])|;
      && DecodeEntries(buf, Num(pos), |entries|, m)
         == DecodeEntries(buf, Num(pos + n), |entries| - 1, m[Num(e.key) := e.value])
      && EncodedAt(buf, pos + n, entries[1..])
      && |Body(entries)| == n + |Body(entries[1..])|
  {
    hide DecodeUInt, DecodeBytes, EncodeKey, EncodeValue, Slice, EncodedAt, Body;
    FirstEncodedAt(buf, pos, entries);
    KeyAt(buf, pos, entries[0]);
    ShortValueAt(buf, pos + |EncodeKey(entries[0])|, entries[0]);
  }

  /** Decoding the first of some encoded entries, when its value is long: the key comes with another value. */
  lemma {:induction false} FirstLong(buf: seq<Byte>, pos: nat, entries: seq<Entry>, m: CborMap)
    requires EncodableKeys(entries) && entries != [] && EncodedAt(buf, pos, entries) && |entries[0].value| >= 24
    ensures
      var r, key := DecodeEntry(buf, Num(pos), m), Num(entries[0].key);
      && r.Ok? && r.value.0.Keys == m.Keys + {key}
      && r.value.0[key] != entries[0].value
      && DecodeEntries(buf, Num(pos), |entries|, m) == DecodeEntries(buf, r.value.1, |entries| - 1, r.value.0)
  {
    hide DecodeUInt, DecodeBytes, EncodeKey, EncodeValue, Slice, EncodedAt, Body, DecodeEntries;
    FirstEncodedAt(buf, pos, entries);
    KeyAt(buf, pos, entries[0]);
    LongValueAt(buf, pos + |EncodeKey(entries[0])|, entries[0]);
    DecodeEntriesStep(buf, Num(pos), |entries|, m);
  }

  lemma {:induction false} DecodeEntriesStep(buf: seq<Byte>, pos: Num, n: nat, m: CborMap)
    requires n > 0 && DecodeEntry(buf, pos, m).Ok?
    ensures
      var (m', pos') := DecodeEntry(buf, pos, m).value;
      DecodeEntries(buf, pos, n, m) == DecodeEntries(buf, pos', n - 1, m')
  {
    hide DecodeEntry;
  }

  lemma {:induction false} DecodeShortEntries(buf: seq<Byte>, pos: nat, entries: seq<Entry>, m: CborMap)
    requires EncodableKeys(entries) && ShortValues(entries) && EncodedAt(buf, pos, entries)
    ensures DecodeEntries(buf, Num(pos), |entries|, m)
         == Ok((MapOf(entries, m), Num(pos + |Body(entries)|)))
    decreases |entries|
  {
    hide DecodeEntry, EncodeKey, EncodeValue;
    if entries == [] {
    } else {
      var e := entries[0];
      FirstShort(buf, pos, entries, m);
      DecodeShortEntries(buf, pos + |EncodeKey(e)| + |EncodeValue(e)|, entries[1..], m[Num(e.key) := e.value]);
    }
  }

  /** n decoded entries add at most n keys; if they add that many, nothing decoded before is overwritten. */
  lemma {:induction false} DecodeGrowth(buf: seq<Byte>, pos: Num, n: nat, m: CborMap)
    requires DecodeEntries(buf, pos, n, m).Ok?
    ensures |DecodeEntries(buf, pos, n, m).value.0| <= |m| + n
    ensures |DecodeEntries(buf, pos, n, m).value.0| == |m| + n ==>
      forall k :: k in m ==>
        k in DecodeEntries(buf, pos, n, m).value.0 && DecodeEntries(buf, pos, n, m).value.0[k] == m[k]
    decreases n
  {
    hide DecodeUInt, DecodeBytes;
    if n == 0 {
    } else {
      var (m', pos') := DecodeEntry(buf, pos, m).value;
      var (key, _) := DecodeUInt(buf, pos).value;
      assert m'.Keys == m.Keys + {key};
      DecodeGrowth(buf, pos', n - 1, m');
    }
  }

  /** None of the keys is in the map. */
  ghost predicate FreshKeys(entries: seq<Entry>, m: CborMap) {
    forall i :: 0 <= i < |entries| ==> Num(entries[i].key) !in m
  }

  lemma {:induction false} MapOfSize(entries: seq<Entry>, m: CborMap)
    requires DistinctKeys(entries)
    requires FreshKeys(entries, m)
    ensures |MapOf(entries, m)| == |m| + |entries|
    ensures forall k :: k in m ==> k in MapOf(entries, m) && MapOf(entries, m)[k] == m[k]
    ensures forall i :: 0 <= i < |entries| ==>
      Num(entries[i].key) in MapOf(entries, m) && MapOf(entries, m)[Num(entries[i].key)] == entries[i].value
    decreases |entries|
  {
    if entries == [] {
    } else {
      var key := Num(entries[0].key);
      var m' := m[key := entries[0].value];
      assert m'.Keys == m.Keys + {key};
      MapOfSize(entries[1..], m');
    }
  }

  /** Whatever is decoded, it is not the map of the entries. */
  ghost predicate Lost(buf: seq<Byte>, pos: nat, entries: seq<Entry>, m: CborMap) {
    var r := DecodeEntries(buf, Num(pos), |entries|, m);
    r.Ok? ==> r.value.0 != MapOf(entries, m)
  }

  /** A first value that is long is lost for good: no later entry can put it right without costing another key. */
  lemma {:induction false} FirstLongLost(buf: seq<Byte>, pos: nat, entries: seq<Entry>, m: CborMap)
    requires EncodableKeys(entries) && DistinctKeys(entries) && EncodedAt(buf, pos, entries)
    requires entries != [] && |entries[0].value| >= 24 && FreshKeys(entries, m)
    ensures Lost(buf, pos, entries, m)
  {
    hide DecodeEntry, DecodeEntries, MapOf, EncodedAt, DistinctKeys, EncodableKeys;
    FirstLong(buf, pos, entries, m);
    MapOfSize(entries, m);
    if DecodeEntries(buf, Num(pos), |entries|, m).Ok? {
      var (m', pos') := DecodeEntry(buf, Num(pos), m).value;
      OneMore(m, m', Num(entries[0].key));
      DecodeGrowth(buf, pos', |entries| - 1, m');
    }
  }

  lemma {:induction false} OneMore(m: CborMap, m': CborMap, key: Num)
    requires key !in m && m'.Keys == m.Keys + {key}
    ensures |m'| == |m| + 1
  {
    assert |m'| == |m'.Keys|;
  }

  /** A short first value changes nothing about the others being lost. */
  lemma {:induction false} FirstShortLost(buf: seq<Byte>, pos: nat, entries: seq<Entry>, m: CborMap)
    requires EncodableKeys(entries) && DistinctKeys(entries) && EncodedAt(buf, pos, entries)
    requires entries != [] && |entries[0].value| < 24 && FreshKeys(entries, m)
    requires Lost(buf, pos + |EncodeKey(entries[0])| + |EncodeValue(entries[0])|, entries[1..],
                  m[Num(entries[0].key) := entries[0].value])
    ensures Lost(buf, pos, entries, m)
  {
    hide DecodeEntries, MapOf, EncodeKey, EncodeValue, EncodedAt, DistinctKeys, FreshKeys, EncodableKeys;
    FirstShort(buf, pos, entries, m);
    RestFresh(entries, m);
  }

  /** Without the first of some entries with distinct, fresh keys, the others are distinct and fresh still. */
  lemma {:induction false} RestFresh(entries: seq<Entry>, m: CborMap)
    requires entries != [] && DistinctKeys(entries)
    requires FreshKeys(entries, m)
    ensures DistinctKeys(entries[1..])
    ensures
      var m' := m[Num(entries[0].key) := entries[0].value];
      && MapOf(entries, m) == MapOf(entries[1..], m')
      && FreshKeys(entries[1..], m')
  {
  }

  /** A list with a long value is not empty; behind a short first value, the others hold it. */
  lemma {:induction false} LongNotEmpty(entries: seq<Entry>)
    requires EncodableKeys(entries) && !ShortValues(entries)
    ensures entries != [] && EncodableKeys(entries[1..]) && entries[0].key < 65536
    ensures |entries[0].value| < 24 ==> !ShortValues(entries[1..])
  {
    var i :| 0 <= i < |entries| && |entries[i].value| >= 24;
    assert i > 0 ==> entries[1..][i - 1] == entries[i];
  }

  /** With a long value among distinct keys, the decoder cannot produce the encoded map. */
  lemma {:induction false} LongEntriesLost(buf: seq<Byte>, pos: nat, entries: seq<Entry>, m: CborMap)
    requires EncodableKeys(entries) && DistinctKeys(entries) && !ShortValues(entries) && EncodedAt(buf, pos, entries)
    requires FreshKeys(entries, m)
    ensures Lost(buf, pos, entries, m)
    decreases |entries|
  {
    LongNotEmpty(entries);
    hide Lost, EncodeKey, EncodeValue, EncodedAt, DistinctKeys, ShortValues, FreshKeys, EncodableKeys, MapOf;
    var e := entries[0];
    if |e.value| >= 24 {
      FirstLongLost(buf, pos, entries, m);
    } else {
      var next := RestEncodedAt(buf, pos, entries);
      RestFresh(entries, m);
      LongEntriesLost(buf, next, entries[1..], m[Num(e.key) := e.value]);
      FirstShortLost(buf, pos, entries, m);
    }
  }

  lemma {:induction false} HeaderAt(buf: seq<Byte>, pos: nat, n: nat)
    requires pos + |MapHeader(n)| <= |buf| && buf[pos..pos + |MapHeader(n)|] == MapHeader(n)
    ensures DecodeUInt(buf, Num(pos)) == Ok((Num(if n < 24 then n else n % 256), Num(|MapHeader(n)|)))
  {
    var h := MapHeader(n);
    assert buf[pos] == buf[pos..pos + |h|][0] == h[0];
    if n >= 24 { assert buf[pos + 1] == buf[pos..pos + |h|][1] == h[1]; }
  }

  /** Header and entries of an encoded map, wherever it stands in a buffer. */
  lemma {:induction false} MapLayout(pre: seq<Byte>, entries: seq<Entry>, post: seq<Byte>)
    requires EncodableKeys(entries)
    ensures
      var buf, h := pre + Encode(entries) + post, MapHeader(|entries|);
      && |pre| + |h| <= |buf| && buf[|pre|..|pre| + |h|] == h
      && EncodedAt(buf, |pre| + |h|, entries)
  {
    var buf, h, c := pre + Encode(entries) + post, MapHeader(|entries|), Body(entries);
    assert buf == pre + h + c + post;
    assert buf[|pre|..|pre| + |h|] == h;
    assert buf[|pre| + |h|..|pre| + |h| + |c|] == c;
  }

  /** Decoding an encoded map reads its entries right after the header. */
  lemma {:induction false} DecodeMapEntries(pre: seq<Byte>, entries: seq<Entry>, post: seq<Byte>)
    requires EncodableKeys(entries)
    ensures
      var buf, n := pre + Encode(entries) + post, |entries|;
      && DecodeMap(buf, |pre|)
         == Measured(|pre|, DecodeEntries(buf, Num(|pre| + |MapHeader(n)|), if n < 24 then n else n % 256, map[]))
      && EncodedAt(buf, |pre| + |MapHeader(n)|, entries)
  {
    MapLayout(pre, entries, post);
    HeaderAt(pre + Encode(entries) + post, |pre|, |entries|);
  }

  /** Up to 255 entries with short values decode to their last-wins map, and exactly their bytes are read. */
  lemma {:induction false} DecodeEncode(pre: seq<Byte>, entries: seq<Entry>, post: seq<Byte>)
    requires EncodableKeys(entries) && ShortValues(entries) && |entries| <= 255
    ensures DecodeMap(pre + Encode(entries) + post, |pre|)
         == Ok((MapOf(entries, map[]), Num(|Encode(entries)|)))
  {
    hide DecodeUInt, MapHeader, DecodeEntry;
    DecodeMapEntries(pre, entries, post);
    DecodeShortEntries(pre + Encode(entries) + post, |pre| + |MapHeader(|entries|)|, entries, map[]);
  }

  /** For distinct keys, a map round-trips exactly with at most 255 entries, all of them shorter than 24 bytes. */
  lemma {:induction false} MapRoundTripIff(pre: seq<Byte>, entries: seq<Entry>, post: seq<Byte>)
    requires EncodableKeys(entries) && DistinctKeys(entries)
    ensures
      var r := DecodeMap(pre + Encode(entries) + post, |pre|);
      (r.Ok? && r.value.0 == MapOf(entries, map[])) <==> (|entries| <= 255 && ShortValues(entries))
  {
    hide DecodeMap, Encode, MapOf;
    if |entries| > 255 {
      TooManyEntriesLost(pre, entries, post);
    } else if ShortValues(entries) {
      DecodeEncode(pre, entries, post);
    } else {
      LongValueLost(pre, entries, post);
    }
  }

  lemma {:induction false} LongValueLost(pre: seq<Byte>, entries: seq<Entry>, post: seq<Byte>)
    requires EncodableKeys(entries) && DistinctKeys(entries) && |entries| <= 255 && !ShortValues(entries)
    ensures
      var r := DecodeMap(pre + Encode(entries) + post, |pre|);
      r.Ok? ==> r.value.0 != MapOf(entries, map[])
  {
    hide DecodeMap, DecodeEntries, Encode, MapHeader, MapOf, EncodedAt, ShortValues, DistinctKeys;
    DecodeMapEntries(pre, entries, post);
    var buf, pos, n := pre + Encode(entries) + post, |pre| + |MapHeader(|entries|)|, |entries|;
    assert (if n < 24 then n else n % 256) == n;
    assert DecodeMap(buf, |pre|) == Measured(|pre|, DecodeEntries(buf, Num(pos), n, map[]));
    if DecodeMap(buf, |pre|).Ok? {
      LongEntriesLost(buf, pos, entries, map[]);
    }
  }

  lemma {:induction false} TooManyEntriesLost(pre: seq<Byte>, entries: seq<Entry>, post: seq<Byte>)
    requires EncodableKeys(entries) && DistinctKeys(entries) && |entries| > 255
    ensures
      var r := DecodeMap(pre + Encode(entries) + post, |pre|);
      r.Ok? ==> r.value.0 != MapOf(entries, map[])
  {
    hide DecodeMap, DecodeEntries, Encode, MapHeader, MapOf;
    var buf, pos, n := pre + Encode(entries) + post, Num(|pre| + |MapHeader(|entries|)|), |entries| % 256;
    DecodeMapEntries(pre, entries, post);
    MapOfSize(entries, map[]);
    if DecodeMap(buf, |pre|).Ok? {
      DecodeGrowth(buf, pos, n, map[]);
    }
  }

  /**
   * Distinct keys matter: here the bytes of a lost long value happen to decode as the later, winning entry,
   * so the map comes out right although a value is too long. The long value is 33 bytes, and its low
   * length byte reads as key 1.
   */
  lemma RepeatedKeyCoincidence()
    ensures
      var entries := [Entry(1, [0x40] + Zeros(32), false), Entry(1, [], false)];
      !ShortValues(entries) &&
      DecodeMap(Encode(entries), 0).Ok? && DecodeMap(Encode(entries), 0).value.0 == MapOf(entries, map[])
  {
    var long := Entry(1, [0x40] + Zeros(32), false);
    var entries := [long, Entry(1, [], false)];
    var buf := Encode(entries);
    assert !ShortValues(entries) by { assert |entries[0].value| == 33; }
    assert Body(entries) == EncodeKey(long) + EncodeValue(long) + Body(entries[1..]);
    assert EncodeKey(long) == [1] && EncodeValue(long) == [0x58, 0, 33] + long.value;
    assert buf == [0xa2] + ([1] + ([0x58, 0, 33] + ([0x40] + Zeros(32))) + Body(entries[1..]));
    assert buf[0] == 0xa2 && buf[1] == 1 && buf[2] == 0x58 && buf[3] == 0 && buf[4] == 33 && buf[5] == 0x40;
    var one: CborMap := map[Num(1) := []];
    CoincidenceDecodes(buf);
    var m := map[Num(1) := long.value];
    assert entries[1..] == [Entry(1, [], false)] && entries[1..][1..] == [];
    assert MapOf(entries, map[]) == MapOf(entries[1..], m) == m[Num(1) := []] == one;
  }

  lemma {:induction false} CoincidenceDecodes(buf: seq<Byte>)
    requires |buf| >= 6
    requires buf[0] == 0xa2 && buf[1] == 1 && buf[2] == 0x58 && buf[3] == 0 && buf[4] == 33 && buf[5] == 0x40
    ensures DecodeMap(buf, 0) == Ok((map[Num(1) := []], Num(6)))
  {
    var one: CborMap := map[Num(1) := []];
    assert DecodeUInt(buf, Num(0)) == Ok((Num(2), Num(1)));
    assert Slice(buf, Num(4), Num(4)) == [];
    assert DecodeBytes(buf, Num(2)) == Ok(([], Num(2)));
    assert DecodeEntry(buf, Num(1), map[]) == Ok((map[Num(1) := []], Num(4)));
    assert Slice(buf, Num(6), Num(6)) == [] && Slice(buf, Num(4), Num(4)) == [];
    assert one[Num(1) := []] == one;
    assert DecodeEntry(buf, Num(4), one) == Ok((one, Num(6)));
    assert DecodeMap(buf, 0) == Ok((one, Num(6)));
  }

  // ---------------------------------------------------------------------------
  // Against the standard
  // ---------------------------------------------------------------------------

  /** The head of a data item by section 3 of RFC 8949: major type, argument, and the bytes they take. */
  function StandardHead(buf: seq<Byte>): Option<(nat, nat, nat)> {
    if buf == [] then None
    else
      var major, info := buf[0] as int / 32, buf[0] as int % 32;
      if info < 24 then Some((major, info, 1))
      else
        var n := if info == 24 then 1 else if info == 25 then 2 else if info == 26 then 4 else 8;
        if info > 27 || |buf| < 1 + n then None else Some((major, Value(buf[1..1 + n]), 1 + n))
  }

  lemma {:induction false} ValueOfTwo(s: seq<Byte>)
    ensures |s| == 1 ==> Value(s) == s[0] as int
    ensures |s| == 2 ==> Value(s) == 256 * s[0] as int + s[1] as int
  {
    if |s| == 1 { assert s[..0] == []; }
    if |s| == 2 { assert s[..1][..0] == [] && Value(s[..1]) == s[0] as int; }
  }

  /** A map's header is one of a map (major type 5), and of the right number of entries exactly below 256. */
  lemma {:induction false} MapHeadIff(n: nat, rest: seq<Byte>)
    ensures
      var head := StandardHead(MapHeader(n) + rest);
      && head.Some? && head.value.0 == 5 && head.value.2 == |MapHeader(n)|
      && (head.value.1 == n <==> n < 256)
  {
    var buf := MapHeader(n) + rest;
    if n >= 24 {
      assert buf[1..2] == [n % 256];
      ValueOfTwo(buf[1..2]);
    }
  }

  /**
   * Any integer below 65536 is accepted; a non-negative one is written as such (major type 0) with its value, a
   * negative one as its lowest byte, and so never as what it is (major type 1, with the argument -1 - value).
   */
  lemma {:induction false} IntHeadIff(value: int, rest: seq<Byte>)
    ensures EncodeInt(value).Ok? <==> value < 65536
    ensures value < 65536 ==>
      var enc := EncodeInt(value).value;
      && (value >= 0 ==> StandardHead(enc + rest) == Some((0, value, |enc|)))
      && (value < 0 ==> |enc| == 1 && exists k :: value == 256 * k + enc[0] as int)
      && (value < 0 ==> StandardHead(enc + rest) != Some((1, -1 - value, |enc|)))
  {
    if 24 <= value < 65536 {
      var buf := EncodeInt(value).value + rest;
      if value < 256 {
        assert buf[1..2] == [value];
        ValueOfTwo(buf[1..2]);
      } else {
        assert buf[1..3] == [value / 256, value % 256];
        ValueOfTwo(buf[1..3]);
      }
    } else if value < 0 {
      assert value == 256 * (value / 256) + value % 256;
    }
  }

  /**
   * Heads are read as the standard has it, whatever the major type, where the argument takes at most two bytes and all
   * of them are there; longer arguments and reserved markers are errors.
   */
  lemma {:induction false} ReadsStandardHeads(buf: seq<Byte>, pos: nat)
    requires pos < |buf|
    ensures
      var head, r := StandardHead(buf[pos..]), DecodeUInt(buf, Num(pos));
      && (r.Err? <==> buf[pos] % 32 >= 26)
      && (r.Ok? && head.Some? ==> r == Ok((Num(head.value.1), Num(head.value.2))))
      && (r.Ok? ==> (head.None? <==> pos + r.value.1.n > |buf|))
  {
    var rest := buf[pos..];
    if rest[0] % 32 == 24 && |rest| >= 2 {
      ValueOfTwo(rest[1..2]);
    } else if rest[0] % 32 == 25 && |rest| >= 3 {
      ValueOfTwo(rest[1..3]);
    }
  }

  /**
   * A string is written as a byte string (major type 2) or a text string (major type 3), with its bytes behind the
   * head; its length is the right one exactly below 24 bytes.
   */
  lemma {:induction false} StringHeadIff(e: Entry, rest: seq<Byte>)
    ensures
      var enc := EncodeValue(e);
      var head := StandardHead(enc + rest);
      && head.Some? && head.value.0 == (if e.isText then 3 else 2)
      && (head.value.1 == |e.value| <==> |e.value| < 24)
      && |e.value| <= |enc| && enc[|enc| - |e.value|..] == e.value
      && (|e.value| < 24 ==> head.value.2 == |enc| - |e.value|)
  {
    var buf := EncodeValue(e) + rest;
    if |e.value| >= 24 {
      assert buf[1..2] == [|e.value| / 256 % 256];
      ValueOfTwo(buf[1..2]);
    }
  }

  // ---------------------------------------------------------------------------
  // Cut-off buffers
  // ---------------------------------------------------------------------------

  ghost predicate PastEnd(buf: seq<Byte>, pos: Num) {
    pos.Num? ==> pos.n >= |buf|
  }

  /** Past the end, every missing entry reads as two bytes: key 0 with an empty string. */
  lemma {:induction false} MissingEntries(buf: seq<Byte>, pos: Num, n: nat, m: CborMap)
    requires PastEnd(buf, pos)
    ensures DecodeEntries(buf, pos, n, m)
         == Ok((if n == 0 then m else m[Num(0) := []], if pos.Num? then Num(pos.n + 2 * n) else Undefined))
    decreases n
  {
    if n > 0 {
      var next := Add(pos, Num(2));
      assert DecodeEntry(buf, pos, m) == Ok((m[Num(0) := []], next));
      MissingEntries(buf, next, n - 1, m[Num(0) := []]);
      assert m[Num(0) := []][Num(0) := []] == m[Num(0) := []];
    }
  }

  /** A marker for a longer argument as the last byte makes a key `undefined`, and a string empty without an end. */
  lemma {:induction false} MarkerAtEnd(buf: seq<Byte>, pos: nat)
    requires pos + 1 == |buf| && buf[pos] % 32 == 24
    ensures DecodeUInt(buf, Num(pos)) == Ok((Undefined, Num(2)))
    ensures DecodeBytes(buf, Num(pos)) == Ok(([], Undefined))
  {
  }

  /** Reading a number from a buffer that is cut off: it still goes well, and differs only if bytes are missing. */
  lemma {:induction false} CutUInt(buf: seq<Byte>, cut: nat, pos: nat)
    requires cut <= |buf| && DecodeUInt(buf, Num(pos)).Ok?
    ensures
      var whole, part := DecodeUInt(buf, Num(pos)), DecodeUInt(buf[..cut], Num(pos));
      && part.Ok? && whole.value.1.Num? && part.value.1.Num? && part.value.1.n >= 1
      && (pos < cut ==> part.value.1 == whole.value.1)
      && (pos + whole.value.1.n <= cut ==> part == whole)
      && (pos + part.value.1.n <= cut ==> part == whole)
  {
  }

  lemma {:induction false} CutBytes(buf: seq<Byte>, cut: nat, pos: nat)
    requires cut <= |buf| && DecodeBytes(buf, Num(pos)).Ok?
    ensures
      var whole, part := DecodeBytes(buf, Num(pos)), DecodeBytes(buf[..cut], Num(pos));
      && part.Ok?
      && (PastEnd(buf[..cut], Add(Num(pos), part.value.1)) || part.value.1 == whole.value.1)
  {
    hide DecodeUInt, Slice;
    CutUInt(buf, cut, pos);
  }

  lemma {:induction false} CutEntries(buf: seq<Byte>, cut: nat, pos: Num, n: nat, m: CborMap, m': CborMap)
    requires cut <= |buf| && DecodeEntries(buf, pos, n, m).Ok?
    ensures DecodeEntries(buf[..cut], pos, n, m').Ok?
    decreases n
  {
    hide DecodeUInt, DecodeBytes;
    var part := buf[..cut];
    if PastEnd(part, pos) {
      MissingEntries(part, pos, n, m');
    } else if n > 0 {
      CutUInt(buf, cut, pos.n);
      var p := pos.n + DecodeUInt(buf, pos).value.1.n;
      CutBytes(buf, cut, p);
      var (next, pos') := DecodeEntry(part, pos, m').value;
      if PastEnd(part, pos') {
        MissingEntries(part, pos', n - 1, next);
      } else {
        CutEntries(buf, cut, pos', n - 1, DecodeEntry(buf, pos, m).value.0, next);
      }
    }
  }

  /** The decoder cannot tell a cut-off map from a whole one: where it decodes a buffer, it decodes every part of it. */
  lemma {:induction false} CutOffStillDecodes(buf: seq<Byte>, cut: nat, offset: nat)
    requires cut <= |buf| && DecodeMap(buf, offset).Ok?
    ensures DecodeMap(buf[..cut], offset).Ok?
  {
    hide DecodeUInt, DecodeEntries;
    CutUInt(buf, cut, offset);
    var (count, read) := DecodeUInt(buf[..cut], Num(offset)).value;
    var pos := Add(Num(offset), read);
    if PastEnd(buf[..cut], pos) {
      MissingEntries(buf[..cut], pos, Bits(count), map[]);
    } else {
      CutEntries(buf, cut, pos, Bits(count), map[], map[]);
    }
  }
}
