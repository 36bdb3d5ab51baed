/** Decimal numerals: writing, padding and reading them. */
module Decimals {
  function Digit(d: nat): char
    requires d < 10
  {
    ['0', '1', '2', '3', '4', '5', '6', '7', '8', '9'][d]
  }

  /** `n.toString()` */
  function Decimal(n: nat): (s: string)
    ensures |s| >= 1
  {
    if n < 10 then [Digit(n)] else Decimal(n / 10) + [Digit(n % 10)]
  }

  function PadStart(s: string, len: nat): string {
    if |s| >= len then s else seq(len - |s|, _ => '0') + s
  }

  function Pow10(d: nat): (p: nat)
    ensures p >= 1
  {
    if d == 0 then 1 else 10 * Pow10(d - 1)
  }

  /** The number a digit string spells. */
  function DecimalValue(s: string): nat {
    if s == "" then 0
    else 10 * DecimalValue(s[..|s| - 1]) + (if '0' <= s[|s| - 1] <= '9' then s[|s| - 1] as int - '0' as int else 0)
  }

  lemma {:induction false} DecimalShape(n: nat, digits: nat)
    requires n < Pow10(digits)
    ensures |Decimal(n)| <= if digits == 0 then 1 else digits
    ensures forall i :: 0 <= i < |Decimal(n)| ==> '0' <= Decimal(n)[i] <= '9'
    ensures DecimalValue(Decimal(n)) == n
    decreases n
  {
    if n >= 10 {
      assert digits >= 2;
      DecimalShape(n / 10, digits - 1);
      DecimalValueAppend(Decimal(n / 10), n % 10);
    }
  }

  lemma {:induction false} DecimalValueAppend(s: string, d: nat)
    requires d < 10
    ensures DecimalValue(s + [Digit(d)]) == 10 * DecimalValue(s) + d
  {
    assert (s + [Digit(d)])[..|s|] == s;
  }

  lemma {:induction false} PaddingValue(zeros: nat, s: string)
    ensures DecimalValue(seq(zeros, _ => '0') + s) == DecimalValue(s)
    decreases |s|, zeros
  {
    var z := seq(zeros, _ => '0');
    if s != "" {
      PaddingValue(zeros, s[..|s| - 1]);
      assert (z + s)[..|z + s| - 1] == z + s[..|s| - 1];
    } else if zeros > 0 {
      PaddingValue(zeros - 1, "");
      assert (z + s)[..zeros - 1] == seq(zeros - 1, _ => '0') + "";
    } else {
      assert z + s == s;
    }
  }

  predicate IsDigit(c: char) {
    '0' <= c <= '9'
  }

  /** Reading a numeral from the front gives the value read from the back. */
  lemma {:induction false} ReadFromFront(c: char, s: string)
    requires IsDigit(c)
    ensures DecimalValue([c] + s) == Pow10(|s|) * (c as int - '0' as int) + DecimalValue(s)
  {
    if s == "" {
      assert [c] + s == [c] && [c][..0] == "";
    } else {
      var n := |s| - 1;
      ReadFromFront(c, s[..n]);
      assert ([c] + s)[..|s|] == [c] + s[..n];
      TimesTen(Pow10(n), c as int - '0' as int);
    }
  }

  lemma {:induction false} TimesTen(p: nat, d: nat)
    ensures 10 * (p * d) == (10 * p) * d
  {
  }
}
