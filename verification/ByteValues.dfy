/** Big-endian values of byte sequences, and the minimal two's-complement form of a non-negative integer. */
module ByteValues {
  import opened Bytes
  import opened ModArith

  lemma {:induction false} ValueBound(s: seq<Byte>)
    ensures Value(s) < Pow(256, |s|)
  {
    if s == [] {
    } else {
      ValueBound(s[..|s| - 1]);
    }
  }

  lemma {:induction false} ValueFront(s: seq<Byte>)
    requires s != []
    ensures Value(s) == s[0] as int * Pow(256, |s| - 1) + Value(s[1..])
  {
    var n := |s| - 1;
    if n == 0 {
      assert s[..0] == [] && s[1..] == [];
    } else {
      ValueFront(s[..n]);
      assert s[1..][..n - 1] == s[..n][1..];
      assert Pow(256, n) == 256 * Pow(256, n - 1);
      MulAssoc(s[0] as int, 256, Pow(256, n - 1));
      assert 256 * (s[0] as int * Pow(256, n - 1)) == s[0] as int * Pow(256, n);
    }
  }

  lemma {:induction false} LeadingZero(s: seq<Byte>)
    requires s != [] && s[0] == 0
    ensures Value(s[1..]) == Value(s)
  {
    ValueFront(s);
  }

  lemma {:induction false} LeadingZeros(n: nat, s: seq<Byte>)
    ensures Value(Zeros(n) + s) == Value(s)
  {
    if n == 0 {
      assert Zeros(0) + s == s;
    } else {
      var t := Zeros(n) + s;
      assert t[1..] == Zeros(n - 1) + s;
      LeadingZero(t);
      LeadingZeros(n - 1, s);
    }
  }

  lemma {:induction false} ValueInjective(a: seq<Byte>, b: seq<Byte>)
    requires |a| == |b| && Value(a) == Value(b)
    ensures a == b
  {
    if a == [] {
    } else {
      var n := |a| - 1;
      ValueInjective(a[..n], b[..n]);
      assert a == a[..n] + [a[n]] && b == b[..n] + [b[n]];
    }
  }

  lemma {:induction false} PowMonotone(d: nat, e: nat)
    requires d <= e
    ensures Pow(256, d) <= Pow(256, e)
  {
    PowPositive(256, d);
    if d < e { PowMonotone(d, e - 1); }
  }

  /** The first byte fixes the magnitude: no leading zero. */
  ghost predicate NoLeadingZero(s: seq<Byte>) {
    s != [] && (|s| > 1 ==> s[0] != 0)
  }

  lemma {:induction false} NoLeadingZeroUnique(a: seq<Byte>, b: seq<Byte>)
    requires NoLeadingZero(a) && NoLeadingZero(b) && Value(a) == Value(b)
    ensures a == b
  {
    if |a| < |b| {
      Shorter(a, b);
    } else if |b| < |a| {
      Shorter(b, a);
    }
    ValueInjective(a, b);
  }

  lemma {:induction false} Shorter(a: seq<Byte>, b: seq<Byte>)
    requires NoLeadingZero(b) && |a| < |b| && |b| > 1
    ensures Value(a) < Value(b)
  {
    ValueBound(a);
    PowMonotone(|a|, |b| - 1);
    ValueFront(b);
    PowPositive(256, |b| - 1);
    MulAtLeast(b[0] as int, Pow(256, |b| - 1));
  }

  /** Contents octets of a minimal, non-negative INTEGER (section 8.3 of ITU-T X.690). */
  ghost predicate Minimal(c: seq<Byte>) {
    && c != []
    && c[0] < 128
    && (|c| > 1 && c[0] == 0 ==> c[1] >= 128)
  }

  function Magnitude(c: seq<Byte>): seq<Byte> {
    if |c| > 1 && c[0] == 0 then c[1..] else c
  }

  /** There is only one minimal form of a number. */
  lemma {:induction false} MinimalUnique(a: seq<Byte>, b: seq<Byte>)
    requires Minimal(a) && Minimal(b) && Value(a) == Value(b)
    ensures a == b
  {
    if |a| > 1 && a[0] == 0 { LeadingZero(a); }
    if |b| > 1 && b[0] == 0 { LeadingZero(b); }
    NoLeadingZeroUnique(Magnitude(a), Magnitude(b));
    if |a| == |b| { ValueInjective(a, b); }
  }
}
