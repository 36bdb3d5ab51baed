/** Regrouping a bit string: w-bit groups to bits and back, for any group width. */
module BitGroups {
  import opened ModArith

  type Bit = b: int | 0 <= b < 2

  /** The group widths in use. */
  lemma Pow2Values()
    ensures Pow2(5) == 32 && Pow2(8) == 256
  {
  }

  /** The w low bits of v, most significant first: `v.toString(2).padStart(w, '0')` when v < 2^w. */
  function ToBits(v: nat, w: nat): (b: seq<Bit>)
    ensures |b| == w
  {
    if w == 0 then [] else ToBits(v / 2, w - 1) + [v % 2]
  }

  /** All bits but the last are those of half the number. */
  lemma {:induction false} HalfBits(v: nat, w: nat, i: nat)
    requires i < w
    ensures ToBits(v, w)[i] == if i == w - 1 then v % 2 else ToBits(v / 2, w - 1)[i]
  {
  }

  /** `parseInt(b, 2)` */
  function FromBits(b: seq<Bit>): nat {
    if b == [] then 0 else 2 * FromBits(b[..|b| - 1]) + b[|b| - 1]
  }

  lemma {:induction false} FromBitsBound(b: seq<Bit>)
    ensures FromBits(b) < Pow2(|b|)
  {
    if b == [] {
    } else {
      FromBitsBound(b[..|b| - 1]);
    }
  }

  lemma {:induction false} FromToBits(v: nat, w: nat)
    requires v < Pow2(w)
    ensures FromBits(ToBits(v, w)) == v
  {
    if w == 0 {
    } else {
      FromToBits(v / 2, w - 1);
      assert ToBits(v, w)[..w - 1] == ToBits(v / 2, w - 1);
    }
  }

  lemma {:induction false} ToFromBits(b: seq<Bit>)
    ensures ToBits(FromBits(b), |b|) == b
  {
    if b == [] {
    } else {
      var n := |b| - 1;
      ToFromBits(b[..n]);
      assert FromBits(b) / 2 == FromBits(b[..n]) && FromBits(b) % 2 == b[n];
      assert b == b[..n] + [b[n]];
    }
  }

  /** The bits of every group, in order. */
  function Expand(vals: seq<nat>, w: nat): (bits: seq<Bit>)
  {
    if vals == [] then [] else ToBits(vals[0], w) + Expand(vals[1..], w)
  }

  /** The values of the consecutive w-bit groups; an incomplete last group is dropped. */
  function Regroup(bits: seq<Bit>, w: nat): (vals: seq<nat>)
    requires w > 0
  {
    if |bits| < w then [] else [FromBits(bits[..w])] + Regroup(bits[w..], w)
  }

  lemma {:induction false} ExpandLength(vals: seq<nat>, w: nat)
    ensures |Expand(vals, w)| == |vals| * w
  {
    if vals == [] {
    } else {
      ExpandLength(vals[1..], w);
      MulDifference(|vals|, 1, w);
    }
  }

  lemma {:induction false} RegroupBounds(bits: seq<Bit>, w: nat)
    requires w > 0
    ensures |Regroup(bits, w)| == |bits| / w
    ensures forall i :: 0 <= i < |Regroup(bits, w)| ==> Regroup(bits, w)[i] < Pow2(w)
  {
    if |bits| < w {
      DivModUnique(|bits|, 0, |bits|, w);
    } else {
      RegroupBounds(bits[w..], w);
      FromBitsBound(bits[..w]);
      StepDown(|bits|, w);
    }
  }

  lemma {:induction false} StepDown(n: nat, w: nat)
    requires 0 < w <= n
    ensures n / w == (n - w) / w + 1 && n % w == (n - w) % w
  {
    var q, r := (n - w) / w, (n - w) % w;
    MulDifference(q + 1, 1, w);
    DivModUnique(n, q + 1, r, w);
  }

  /** Splitting bits into groups loses exactly the incomplete last group. */
  lemma {:induction false} ExpandRegroup(bits: seq<Bit>, w: nat)
    requires w > 0
    ensures |bits| % w <= |bits|
    ensures Expand(Regroup(bits, w), w) == bits[..|bits| - |bits| % w]
  {
    hide ToBits, FromBits;
    if |bits| < w {
      DivModUnique(|bits|, 0, |bits|, w);
    } else {
      StepDown(|bits|, w);
      ExpandRegroup(bits[w..], w);
      ToFromBits(bits[..w]);
      var cut := |bits| - |bits| % w;
      assert Expand(Regroup(bits, w), w) == bits[..w] + bits[w..][..cut - w];
      assert bits[..cut] == bits[..w] + bits[w..][..cut - w];
    }
  }

  /** Groups survive expansion, whatever incomplete group follows them. */
  lemma {:induction false} RegroupExpand(vals: seq<nat>, tail: seq<Bit>, w: nat)
    requires |tail| < w
    requires forall i :: 0 <= i < |vals| ==> vals[i] < Pow2(w)
    ensures Regroup(Expand(vals, w) + tail, w) == vals
  {
    hide ToBits, FromBits, Pow2;
    if vals == [] {
    } else {
      var bits := Expand(vals, w) + tail;
      RegroupExpand(vals[1..], tail, w);
      FrontOff(ToBits(vals[0], w), Expand(vals[1..], w), tail);
      assert vals == [vals[0]] + vals[1..];
      FromToBits(vals[0], w);
    }
  }

  lemma {:induction false} FrontOff(a: seq<Bit>, b: seq<Bit>, c: seq<Bit>)
    ensures (a + b + c)[..|a|] == a && (a + b + c)[|a|..] == b + c
  {
  }

  lemma {:induction false} Associative(a: seq<Bit>, b: seq<Bit>, c: seq<Bit>)
    ensures a + (b + c) == (a + b) + c
  {
  }

  lemma {:induction false} ExpandAppend(a: seq<nat>, b: seq<nat>, w: nat)
    ensures Expand(a + b, w) == Expand(a, w) + Expand(b, w)
  {
    hide ToBits;
    if a == [] {
      assert a + b == b;
    } else {
      ExpandAppend(a[1..], b, w);
      var head, ours, theirs := ToBits(a[0], w), Expand(a[1..], w), Expand(b, w);
      assert Expand(a + b, w) == head + (ours + theirs) by {
        assert (a + b)[0] == a[0] && (a + b)[1..] == a[1..] + b;
      }
      Associative(head, ours, theirs);
    }
  }

  lemma {:induction false} RegroupAppend(a: seq<Bit>, b: seq<Bit>, w: nat)
    requires w > 0 && |a| % w == 0
    ensures Regroup(a + b, w) == Regroup(a, w) + Regroup(b, w)
  {
    if |a| < w {
      DivModUnique(|a|, 0, |a|, w);
      assert a + b == b;
    } else {
      StepDown(|a|, w);
      RegroupAppend(a[w..], b, w);
      assert (a + b)[..w] == a[..w] && (a + b)[w..] == a[w..] + b;
    }
  }

  // ---------------------------------------------------------------------------
  // Bit strings as numbers
  // ---------------------------------------------------------------------------

  /** The number some digits spell, most significant first. */
  function Numeral(digits: seq<nat>, base: nat): nat {
    if digits == [] then 0 else base * Numeral(digits[..|digits| - 1], base) + digits[|digits| - 1]
  }

  lemma {:induction false} FromBitsAppend(a: seq<Bit>, b: seq<Bit>)
    ensures FromBits(a + b) == FromBits(a) * Pow2(|b|) + FromBits(b)
  {
    hide FromBits;
    if b == [] {
      assert a + b == a && FromBits([]) == 0 by { FromBitsNext([], 0); }
      assert FromBits(a) * 1 == FromBits(a);
    } else {
      var n := |b| - 1;
      var init, x := b[..n], b[n];
      FromBitsAppend(a, init);
      assert b == init + [x] && a + b == (a + init) + [x];
      FromBitsNext(a + init, x);
      FromBitsNext(init, x);
      DoubleProduct(FromBits(a), Pow2(n));
    }
  }

  lemma {:induction false} FromBitsNext(b: seq<Bit>, x: Bit)
    ensures FromBits([]) == 0 && FromBits(b + [x]) == 2 * FromBits(b) + x
  {
    assert (b + [x])[..|b|] == b;
  }

  lemma {:induction false} DoubleProduct(n: nat, p: nat)
    ensures 2 * (n * p) == n * (2 * p)
  {
  }

  /** The bits of w-bit groups spell the same number as the groups. */
  lemma {:induction false} ExpandValue(vals: seq<nat>, w: nat)
    requires forall i :: 0 <= i < |vals| ==> vals[i] < Pow2(w)
    ensures FromBits(Expand(vals, w)) == Numeral(vals, Pow2(w))
  {
    hide ToBits, Pow2;
    if vals == [] {
    } else {
      var n := |vals| - 1;
      ExpandValue(vals[..n], w);
      ExpandSingle(vals[n], w);
      assert vals == vals[..n] + [vals[n]];
      ExpandAppend(vals[..n], [vals[n]], w);
      FromToBits(vals[n], w);
      FromBitsAppend(Expand(vals[..n], w), ToBits(vals[n], w));
    }
  }

  lemma {:induction false} ExpandSingle(v: nat, w: nat)
    ensures Expand([v], w) == ToBits(v, w)
  {
    hide ToBits;
    assert [v][1..] == [] && Expand([], w) == [] && ToBits(v, w) + [] == ToBits(v, w);
  }
}
