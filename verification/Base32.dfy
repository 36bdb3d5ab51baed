/** Base32 without padding (packages/crypto/src/totp.ts; section 6 of RFC 4648). */
module Base32 {
  import opened Wrappers
  import opened Bytes
  import opened BitGroups
  import opened ModArith

  const ALPHABET := "ABCDEFGHIJKLMNOPQRSTUVWXYZ234567"

  /** `s.indexOf(c)` */
  function IndexOf(s: string, c: char): (i: int)
    ensures -1 <= i < |s|
    ensures i >= 0 ==> s[i] == c
  {
    if s == "" then -1
    else if s[0] == c then 0
    else
      var i := IndexOf(s[1..], c);
      if i == -1 then -1 else i + 1
  }

  lemma {:induction false} AlphabetTable(k: nat)
    requires k < 32
    ensures ALPHABET[k] as int == if k < 26 then 65 + k else 24 + k
  {
  }

  lemma {:induction false} IndexOfFirst(s: string, k: nat)
    requires k < |s| && forall i, j :: 0 <= i < j < |s| ==> s[i] != s[j]
    ensures IndexOf(s, s[k]) == k
  {
    if k == 0 {
    } else {
      IndexOfFirst(s[1..], k - 1);
    }
  }

  lemma {:induction false} AlphabetIndex(k: nat)
    requires k < 32
    ensures IndexOf(ALPHABET, ALPHABET[k]) == k
  {
    forall i, j | 0 <= i < j < 32
      ensures ALPHABET[i] != ALPHABET[j]
    {
      AlphabetTable(i);
      AlphabetTable(j);
    }
    IndexOfFirst(ALPHABET, k);
  }

  // ---------------------------------------------------------------------------
  // Encoding
  // ---------------------------------------------------------------------------

  /** The zero bits that complete the last group of five. */
  function Padding(n: nat): nat {
    (5 - n % 5) % 5
  }

  function Padded(bits: seq<Bit>): (r: seq<Bit>)
    ensures |r| % 5 == 0 && |r| < |bits| + 5
  {
    bits + Zeros(Padding(|bits|))
  }

  function ToChars(vals: seq<nat>): (s: string)
    requires forall i :: 0 <= i < |vals| ==> vals[i] < 32
    ensures |s| == |vals|
  {
    seq(|vals|, i requires 0 <= i < |vals| => ALPHABET[vals[i]])
  }

  /** Eight bits a byte, cut into groups of five, one character a group. */
  ghost function Encoded(secret: seq<Byte>): string {
    var bits := Padded(Expand(secret, 8));
    RegroupBounds(bits, 5);
    Pow2Values();
    ToChars(Regroup(bits, 5))
  }

  method EncodeBase32(secret: seq<Byte>) returns (out: string)
    ensures out == Encoded(secret)
  {
    var bits: seq<Bit> := [];
    for k := 0 to |secret|
      invariant bits + Expand(secret[k..], 8) == Expand(secret, 8)
    {
      ExpandStep(bits, secret[k..], 8);
      assert secret[k..][1..] == secret[k + 1..];
      bits := bits + ToBits(secret[k], 8);
    }
    assert bits + [] == bits;
    bits := PadBits(bits);
    out := CharactersOf(bits);
  }

  lemma {:induction false} ExpandStep(bits: seq<Bit>, vals: seq<nat>, w: nat)
    requires vals != []
    ensures (bits + ToBits(vals[0], w)) + Expand(vals[1..], w) == bits + Expand(vals, w)
  {
  }

  method PadBits(raw: seq<Bit>) returns (bits: seq<Bit>)
    ensures bits == Padded(raw)
  {
    bits := raw;
    while |bits| % 5 != 0
      invariant Padded(bits) == Padded(raw)
      decreases Padding(|bits|)
    {
      PaddingStep(|bits|);
      assert Zeros(Padding(|bits|)) == [0] + Zeros(Padding(|bits| + 1));
      bits := bits + [0];
    }
  }

  lemma {:induction false} PaddingStep(n: nat)
    requires n % 5 != 0
    ensures Padding(n) == 1 + Padding(n + 1)
  {
  }

  method CharactersOf(bits: seq<Bit>) returns (out: string)
    ensures forall i :: 0 <= i < |Regroup(bits, 5)| ==> Regroup(bits, 5)[i] < 32
    ensures out == ToChars(Regroup(bits, 5))
  {
    ghost var groups := Regroup(bits, 5);
    RegroupBounds(bits, 5);
    Pow2Values();
    out := "";
    var i := 0;
    while i + 5 <= |bits|
      invariant i <= |bits|
      invariant |out| <= |groups| && out == ToChars(groups[..|out|])
      invariant Regroup(bits[i..], 5) == groups[|out|..]
    {
      RegroupStep(bits, i, 5);
      var value := FromBits(bits[i..i + 5]);
      assert groups[|out|] == groups[|out|..][0] == value;
      assert groups[|out|..][1..] == groups[|out| + 1..];
      out := out + [ALPHABET[value]];
      i := i + 5;
    }
    assert groups[..|out|] == groups;
  }

  lemma {:induction false} RegroupStep(bits: seq<Bit>, i: nat, w: nat)
    requires w > 0 && i + w <= |bits|
    ensures Regroup(bits[i..], w) == [FromBits(bits[i..i + w])] + Regroup(bits[i + w..], w)
  {
    assert bits[i..][..w] == bits[i..i + w] && bits[i..][w..] == bits[i + w..];
  }

  // ---------------------------------------------------------------------------
  // Decoding
  // ---------------------------------------------------------------------------

  /**
   * Upper-casing is done character by character and may yield several characters; all that is
   * assumed of it is that it leaves the alphabet alone.
   */
  ghost predicate KeepsAlphabet(up: char -> string) {
    forall k :: 0 <= k < 32 ==> up(ALPHABET[k]) == [ALPHABET[k]]
  }

  /** `input.toUpperCase().replace(/=+/g, '')` */
  function Normalized(up: char -> string, s: string): string {
    if s == "" then "" else WithoutPad(up(s[0])) + Normalized(up, s[1..])
  }

  function WithoutPad(s: string): string {
    if s == "" then ""
    else if s[0] == '=' then WithoutPad(s[1..])
    else [s[0]] + WithoutPad(s[1..])
  }

  ghost predicate InAlphabet(s: string) {
    forall i :: 0 <= i < |s| ==> s[i] in ALPHABET
  }

  /** The five-bit value of every character, where all of them have one. */
  function Indices(s: string): (r: Option<seq<nat>>)
    ensures r.Some? ==> |r.value| == |s|
  {
    if s == "" then Some([])
    else
      var i := IndexOf(ALPHABET, s[0]);
      var rest := Indices(s[1..]);
      if i == -1 || rest.None? then None else Some([i as nat] + rest.value)
  }

  /** The decoded buffer, or nothing where some character is outside the alphabet. */
  function Decoded(up: char -> string, input: string): Option<seq<Byte>> {
    match Indices(Normalized(up, input))
    case None => None
    case Some(vals) => Some(ByteGroups(Expand(vals, 5)))
  }

  function ByteGroups(bits: seq<Bit>): (r: seq<Byte>)
    ensures r == Regroup(bits, 8)
  {
    RegroupBounds(bits, 8);
    Pow2Values();
    var vals := Regroup(bits, 8);
    seq(|vals|, i requires 0 <= i < |vals| => vals[i])
  }

  method DecodeBase32(up: char -> string, input: string) returns (r: Option<seq<Byte>>)
    ensures r == Decoded(up, input)
  {
    var upper := Normalized(up, input);
    var bits: seq<Bit> := [];
    for k := 0 to |upper|
      invariant Indices(upper[..k]).Some? && bits == Expand(Indices(upper[..k]).value, 5)
    {
      var idx := IndexOf(ALPHABET, upper[k]);
      IndicesStep(upper, k);
      if idx == -1 { return None; }
      ExpandAppend(Indices(upper[..k]).value, [idx], 5);
      bits := bits + ToBits(idx, 5);
    }
    assert upper[..|upper|] == upper;
    var bytes := BytesOf(bits);
    r := Some(bytes);
  }

  lemma {:induction false} IndicesStep(s: string, k: nat)
    requires k < |s| && Indices(s[..k]).Some?
    ensures
      var idx := IndexOf(ALPHABET, s[k]);
      if idx == -1 then Indices(s).None?
      else Indices(s[..k + 1]) == Some(Indices(s[..k]).value + [idx as nat])
  {
    hide IndexOf, Indices;
    IndicesSingle(s[k]);
    assert s[..k + 1] == s[..k] + [s[k]];
    IndicesAppend(s[..k], [s[k]]);
    assert s == s[..k + 1] + s[k + 1..];
    IndicesAppend(s[..k + 1], s[k + 1..]);
  }

  lemma {:induction false} IndicesSingle(c: char)
    ensures
      var idx := IndexOf(ALPHABET, c);
      Indices([c]) == if idx == -1 then None else Some([idx as nat])
  {
    var idx := IndexOf(ALPHABET, c);
    assert [c][1..] == "";
    if idx >= 0 { assert [idx as nat] + [] == [idx as nat]; }
  }

  lemma {:induction false} IndicesAppend(s: string, t: string)
    ensures Indices(s + t).Some? <==> Indices(s).Some? && Indices(t).Some?
    ensures Indices(s + t).Some? ==> Indices(s + t).value == Indices(s).value + Indices(t).value
  {
    if s == "" {
      assert s + t == t;
    } else {
      assert (s + t)[1..] == s[1..] + t;
      IndicesAppend(s[1..], t);
    }
  }

  method BytesOf(bits: seq<Bit>) returns (bytes: seq<Byte>)
    ensures bytes == Regroup(bits, 8)
  {
    hide Regroup, FromBits, Pow2;
    bytes := [];
    var i := 0;
    while i + 8 <= |bits|
      invariant i <= |bits|
      invariant bytes + Regroup(bits[i..], 8) == Regroup(bits, 8)
    {
      RegroupStep(bits, i, 8);
      FromBitsBound(bits[i..i + 8]);
      Pow2Values();
      var value := FromBits(bits[i..i + 8]);
      bytes := bytes + [value];
      i := i + 8;
    }
    RegroupNone(bits[i..], 8);
    assert bytes + [] == bytes;
  }

  lemma {:induction false} RegroupNone(bits: seq<Bit>, w: nat)
    requires w > |bits|
    ensures Regroup(bits, w) == []
  {
  }

  // ---------------------------------------------------------------------------
  // Round trips
  // ---------------------------------------------------------------------------

  lemma {:induction false} NormalizedKeeps(up: char -> string, s: string)
    requires KeepsAlphabet(up) && InAlphabet(s)
    ensures Normalized(up, s) == s
  {
    if s == "" {
    } else {
      var k := IndexOf(ALPHABET, s[0]);
      assert s[0] in ALPHABET;
      var j :| 0 <= j < |ALPHABET| && ALPHABET[j] == s[0];
      AlphabetTable(j);
      assert up(ALPHABET[j]) == [ALPHABET[j]];
      assert WithoutPad([s[0]]) == [s[0]] + WithoutPad([s[0]][1..]) == [s[0]];
      NormalizedKeeps(up, s[1..]);
    }
  }

  lemma {:induction false} IndicesOfChars(vals: seq<nat>)
    requires forall i :: 0 <= i < |vals| ==> vals[i] < 32
    ensures Indices(ToChars(vals)) == Some(vals)
  {
    hide IndexOf;
    if vals == [] {
    } else {
      AlphabetIndex(vals[0]);
      assert ToChars(vals)[1..] == ToChars(vals[1..]);
      IndicesOfChars(vals[1..]);
      assert vals == [vals[0]] + vals[1..];
    }
  }

  lemma {:induction false} CharsOfIndices(s: string)
    requires InAlphabet(s)
    ensures Indices(s).Some?
    ensures forall i :: 0 <= i < |s| ==> Indices(s).value[i] < 32
    ensures ToChars(Indices(s).value) == s
  {
    hide IndexOf;
    if s == "" {
    } else {
      assert s[0] in ALPHABET;
      var j :| 0 <= j < |ALPHABET| && ALPHABET[j] == s[0];
      AlphabetIndex(j);
      CharsOfIndices(s[1..]);
    }
  }

  lemma {:induction false} CharsInAlphabet(vals: seq<nat>)
    requires forall i :: 0 <= i < |vals| ==> vals[i] < 32
    ensures InAlphabet(ToChars(vals))
  {
  }

  /** Decoding an encoded secret gives the secret back, for every byte string. */
  lemma {:induction false} DecodeEncode(up: char -> string, secret: seq<Byte>)
    requires KeepsAlphabet(up)
    ensures Decoded(up, Encoded(secret)) == Some(secret)
  {
    var bits := Expand(secret, 8);
    var padded := Padded(bits);
    RegroupBounds(padded, 5);
    Pow2Values();
    var vals := Regroup(padded, 5);
    CharsInAlphabet(vals);
    NormalizedKeeps(up, ToChars(vals));
    IndicesOfChars(vals);
    ExpandRegroup(padded, 5);
    assert Expand(vals, 5) == padded;
    RegroupExpand(secret, Zeros(Padding(|bits|)), 8);
  }

  /** n bytes take ceil(8n / 5) characters. */
  lemma {:induction false} EncodedLength(secret: seq<Byte>)
    ensures |Encoded(secret)| == (8 * |secret| + 4) / 5
  {
    ExpandLength(secret, 8);
    RegroupBounds(Padded(Expand(secret, 8)), 5);
  }

  /** The bits left over after the last whole byte of a decoded string. */
  ghost function LeftOver(s: string): seq<Bit> {
    match Indices(s)
    case None => []
    case Some(vals) =>
      var bits := Expand(vals, 5);
      bits[|bits| - |bits| % 8..]
  }

  /**
   * The strings an encoder can produce: alphabet characters only (so upper case and no '='), and
   * fewer than five left-over bits, all zero.
   */
  ghost predicate Canonical(s: string) {
    && InAlphabet(s)
    && 5 * |s| % 8 < 5
    && forall i :: 0 <= i < |LeftOver(s)| ==> LeftOver(s)[i] == 0
  }

  /** Encoding a decoded string gives the string back exactly for the canonical strings. */
  lemma {:induction false} EncodeDecodeIff(up: char -> string, s: string)
    requires KeepsAlphabet(up)
    ensures (Decoded(up, s).Some? && Encoded(Decoded(up, s).value) == s) <==> Canonical(s)
  {
    if Decoded(up, s).Some? && Encoded(Decoded(up, s).value) == s {
      RegroupBounds(Padded(Expand(Decoded(up, s).value, 8)), 5);
      Pow2Values();
      CharsInAlphabet(Regroup(Padded(Expand(Decoded(up, s).value, 8)), 5));
    }
    if InAlphabet(s) {
      NormalizedKeeps(up, s);
      CharsOfIndices(s);
      ReencodeIff(s);
    }
  }

  lemma {:induction false} ReencodeIff(s: string)
    requires InAlphabet(s) && Indices(s).Some?
    ensures Encoded(ByteGroups(Expand(Indices(s).value, 5))) == s <==> Canonical(s)
  {
    hide Encoded, ByteGroups, Expand, Regroup, Padded, Indices, ToChars, IndexOf;
    CharsOfIndices(s);
    var vals := Indices(s).value;
    var bits := Expand(vals, 5);
    ExpandLength(vals, 5);
    var cut := |bits| - |bits| % 8;
    EncodedGroups(bits, cut);
    SameCharsIff(s, Padded(bits[..cut]));
    PaddedIff(bits, cut);
    assert bits[cut..] == LeftOver(s);
  }

  lemma {:induction false} EncodedGroups(bits: seq<Bit>, cut: nat)
    requires cut == |bits| - |bits| % 8
    ensures forall i :: 0 <= i < |Regroup(Padded(bits[..cut]), 5)| ==> Regroup(Padded(bits[..cut]), 5)[i] < 32
    ensures Encoded(ByteGroups(bits)) == ToChars(Regroup(Padded(bits[..cut]), 5))
  {
    RegroupBounds(Padded(bits[..cut]), 5);
    Pow2Values();
    ExpandRegroup(bits, 8);
  }

  /** The characters of a bit string spell s exactly when the bits are those s stands for. */
  lemma {:induction false} SameCharsIff(s: string, padded: seq<Bit>)
    requires InAlphabet(s) && Indices(s).Some? && |padded| % 5 == 0
    ensures forall i :: 0 <= i < |Regroup(padded, 5)| ==> Regroup(padded, 5)[i] < 32
    ensures ToChars(Regroup(padded, 5)) == s <==> padded == Expand(Indices(s).value, 5)
  {
    var vals := Indices(s).value;
    CharsOfIndices(s);
    Pow2Values();
    RegroupBounds(padded, 5);
    IndicesOfChars(Regroup(padded, 5));
    ExpandRegroup(padded, 5);
    RegroupExpand(vals, [], 5);
    assert Expand(vals, 5) + [] == Expand(vals, 5);
  }

  /** Cutting bits at a byte boundary and padding with zeros changes nothing exactly when few zeros were cut. */
  lemma {:induction false} PaddedIff(bits: seq<Bit>, cut: nat)
    requires |bits| % 5 == 0 && cut == |bits| - |bits| % 8
    ensures Padded(bits[..cut]) == bits <==>
            (|bits| % 8 < 5 && forall i :: 0 <= i < |bits[cut..]| ==> bits[cut..][i] == 0)
  {
    var r := |bits| % 8;
    if r < 5 {
      assert Padding(cut) == r;
      assert bits == bits[..cut] + bits[cut..];
      if Padded(bits[..cut]) == bits {
        assert bits[cut..] == Zeros(r);
      }
      if forall i :: 0 <= i < r ==> bits[cut..][i] == 0 {
        assert bits[cut..] == Zeros(r);
      }
    } else {
      assert |Padded(bits[..cut])| < |bits|;
    }
  }

  // ---------------------------------------------------------------------------
  // What an encoding means, and how else it may be spelled
  // ---------------------------------------------------------------------------

  /** The characters are the base-32 digits of the secret's number, with zero bits behind up to a multiple of five. */
  lemma {:induction false} EncodedValue(secret: seq<Byte>)
    ensures Indices(Encoded(secret)).Some?
    ensures Numeral(Indices(Encoded(secret)).value, 32) == Value(secret) * Pow2((5 - 8 * |secret| % 5) % 5)
  {
    hide Expand, Regroup, FromBits, Indices, ToChars, Pow2, Numeral, Value;
    var bits := Expand(secret, 8);
    var padded := Padded(bits);
    Pow2Values();
    ExpandLength(secret, 8);
    RegroupBounds(padded, 5);
    IndicesOfChars(Regroup(padded, 5));
    ExpandRegroup(padded, 5);
    ExpandValue(Regroup(padded, 5), 5);
    assert padded[..|padded|] == padded;
    ExpandValue(secret, 8);
    BytesAreNumerals(secret);
    FromBitsAppend(bits, Zeros(Padding(|bits|)));
    ZerosAreNothing(Padding(|bits|));
  }

  lemma {:induction false} BytesAreNumerals(s: seq<Byte>)
    ensures Numeral(s, 256) == Value(s)
  {
    if s == [] {
    } else {
      BytesAreNumerals(s[..|s| - 1]);
    }
  }

  lemma {:induction false} ZerosAreNothing(n: nat)
    ensures FromBits(Zeros(n)) == 0
  {
    if n == 0 {
    } else {
      ZerosAreNothing(n - 1);
      assert Zeros(n)[..n - 1] == Zeros(n - 1);
    }
  }

  /** `'A'` to `'Z'` in lower case; other characters stay. */
  function Lower(c: char): char {
    if 'A' <= c <= 'Z' then (c as int + 32) as char else c
  }

  /** Besides leaving the alphabet and '=' alone, upper-casing turns the alphabet's lower-case letters into it. */
  ghost predicate Uppercases(up: char -> string) {
    KeepsAlphabet(up) && up('=') == "=" && forall k :: 0 <= k < 32 ==> up(Lower(ALPHABET[k])) == [ALPHABET[k]]
  }

  /** t is s with any letters in lower case and any '=' put in. */
  predicate SpellingOf(t: string, s: string) {
    if t == "" then s == ""
    else if t[0] == '=' then SpellingOf(t[1..], s)
    else s != "" && (t[0] == s[0] || t[0] == Lower(s[0])) && SpellingOf(t[1..], s[1..])
  }

  lemma {:induction false} SpellingNormalized(up: char -> string, t: string, s: string)
    requires Uppercases(up) && InAlphabet(s) && SpellingOf(t, s)
    ensures Normalized(up, t) == s
  {
    if t == "" {
    } else if t[0] == '=' {
      assert WithoutPad("=") == WithoutPad("="[1..]) == "";
      SpellingNormalized(up, t[1..], s);
    } else {
      SpellingNormalized(up, t[1..], s[1..]);
      assert s[0] in ALPHABET;
      var k :| 0 <= k < |ALPHABET| && ALPHABET[k] == s[0];
      AlphabetTable(k);
      assert up(ALPHABET[k]) == [s[0]] && up(Lower(ALPHABET[k])) == [s[0]];
      assert WithoutPad([s[0]]) == [s[0]] + WithoutPad([s[0]][1..]) == [s[0]];
      assert s == [s[0]] + s[1..];
    }
  }

  lemma {:induction false} EncodedInAlphabet(secret: seq<Byte>)
    ensures InAlphabet(Encoded(secret))
  {
    RegroupBounds(Padded(Expand(secret, 8)), 5);
    Pow2Values();
    CharsInAlphabet(Regroup(Padded(Expand(secret, 8)), 5));
  }

  /** Every such spelling of an encoded secret decodes to the secret. */
  lemma {:induction false} SpellingsDecode(up: char -> string, secret: seq<Byte>, t: string)
    requires Uppercases(up) && SpellingOf(t, Encoded(secret))
    ensures Decoded(up, t) == Some(secret)
  {
    hide Encoded, Indices, ByteGroups, SpellingOf, InAlphabet, Normalized;
    EncodedInAlphabet(secret);
    SpellingNormalized(up, t, Encoded(secret));
    NormalizedKeeps(up, Encoded(secret));
    DecodeEncode(up, secret);
  }
}
