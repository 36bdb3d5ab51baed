/**
 * HOTP and TOTP (packages/crypto/src/totp.ts; RFC 4226, RFC 6238). HMAC-SHA1 is a parameter returning
 * 20 bytes; times and steps are whole seconds.
 */
module Totp {
  import opened Wrappers
  import opened Bytes
  import opened Decimals
  import opened ModArith
  import opened ByteValues

  type Mac = m: seq<Byte> | |m| == 20 witness Zeros(20)
  type Hmac = (seq<Byte>, seq<Byte>) -> Mac

  /** The error `writeBigUInt64BE` throws for a counter that is not an unsigned 64-bit number. */
  datatype TotpError = RangeError

  const COUNTER_LIMIT: int := 0x1_0000_0000_0000_0000

  /** The len-byte big-endian form of n. */
  function BigEndian(n: nat, len: nat): (s: seq<Byte>)
    ensures |s| == len
  {
    if len == 0 then [] else BigEndian(n / 256, len - 1) + [n % 256]
  }

  lemma {:induction false} DividedBelow(n: nat, p: nat)
    requires n < 256 * p
    ensures n / 256 < p
  {
  }

  lemma {:induction false} BigEndianValue(n: nat, len: nat)
    requires n < Pow(256, len)
    ensures Value(BigEndian(n, len)) == n
  {
    if len == 0 {
    } else {
      DividedBelow(n, Pow(256, len - 1));
      hide Pow;
      BigEndianValue(n / 256, len - 1);
      assert BigEndian(n, len)[..len - 1] == BigEndian(n / 256, len - 1);
    }
  }

  // ---------------------------------------------------------------------------
  // Truncation and decimal digits
  // ---------------------------------------------------------------------------

  /** The 31-bit number at the offset the last nibble names; the four fields do not overlap, so OR is addition. */
  function Truncate(mac: Mac): (bin: nat)
    ensures bin < 0x8000_0000
  {
    var offset := mac[|mac| - 1] % 16;
    var b0: int, b1: int, b2: int, b3: int := mac[offset], mac[offset + 1], mac[offset + 2], mac[offset + 3];
    (b0 % 128) * 0x100_0000 + b1 * 0x1_0000 + b2 * 0x100 + b3
  }

  function Code(mac: Mac, digits: nat): string {
    PadStart(Decimal(Truncate(mac) % Pow10(digits)), digits)
  }

  /**
   * A code has exactly `digits` decimal digits (one digit when digits is 0), and it determines the
   * truncated value modulo 10^digits.
   */
  lemma {:induction false} CodeShape(mac: Mac, digits: nat)
    ensures |Code(mac, digits)| == if digits == 0 then 1 else digits
    ensures forall i :: 0 <= i < |Code(mac, digits)| ==> '0' <= Code(mac, digits)[i] <= '9'
    ensures DecimalValue(Code(mac, digits)) == Truncate(mac) % Pow10(digits)
  {
    hide Truncate, Pow10, Decimal, DecimalValue;
    var n := Truncate(mac) % Pow10(digits);
    DecimalShape(n, digits);
    if |Decimal(n)| < digits { PaddingValue(digits - |Decimal(n)|, Decimal(n)); }
  }

  // ---------------------------------------------------------------------------
  // HOTP
  // ---------------------------------------------------------------------------

  ghost predicate InRange(counter: int) {
    0 <= counter < COUNTER_LIMIT
  }

  function Hotp(hmac: Hmac, secret: seq<Byte>, counter: int, digits: nat): Result<string, TotpError> {
    if 0 <= counter < COUNTER_LIMIT then Ok(Code(hmac(secret, BigEndian(counter, 8)), digits)) else Err(RangeError)
  }

  lemma LimitIsPower()
    ensures Pow(256, 8) == COUNTER_LIMIT
  {
    assert Pow(256, 4) == 0x1_0000_0000;
    PowAdd(256, 4, 4);
  }

  /** Different counters are authenticated as different messages. */
  lemma {:induction false} CountersAreDistinctMessages(c: int, d: int)
    requires InRange(c) && InRange(d) && BigEndian(c, 8) == BigEndian(d, 8)
    ensures c == d
  {
    LimitIsPower();
    BigEndianValue(c, 8);
    BigEndianValue(d, 8);
  }

  /** The four bytes from o on, without the top bit, where the low four bits of the last byte name o. */
  lemma {:induction false} TruncateValue(mac: Mac)
    ensures var o := mac[19] % 16; Truncate(mac) == Value(mac[o..o + 4]) % 0x8000_0000
  {
    var o := mac[19] % 16;
    FourBytes(mac[o..o + 4]);
    DropTopBit(mac[o], Truncate(mac));
  }

  lemma {:induction false} FourBytes(s: seq<Byte>)
    requires |s| == 4
    ensures Value(s) == s[0] as int * 0x100_0000 + s[1] as int * 0x1_0000 + s[2] as int * 0x100 + s[3] as int
  {
    assert s[..3][..2] == s[..2] && s[..2][..1] == s[..1] && s[..1][..0] == [];
    assert Value(s[..1]) == s[0] && Value(s[..2]) == 256 * Value(s[..1]) + s[1];
    assert Value(s[..3]) == 256 * Value(s[..2]) + s[2];
  }

  lemma {:induction false} DropTopBit(b: Byte, bin: nat)
    requires (b % 128) * 0x100_0000 <= bin < (b % 128 + 1) * 0x100_0000
    ensures (bin + (b as int / 128) * 0x8000_0000) % 0x8000_0000 == bin
  {
  }

  /**
   * A counter is authenticated as the one 8-byte message that spells it, and its code prints the four bytes the MAC's
   * last nibble points to, without their top bit, modulo 10^digits.
   */
  lemma {:induction false} HotpOfMessage(hmac: Hmac, secret: seq<Byte>, counter: int, digits: nat, message: seq<Byte>)
    requires |message| == 8 && Value(message) == counter
    ensures
      var mac := hmac(secret, message);
      var o, r := mac[19] % 16, Hotp(hmac, secret, counter, digits);
      && r.Ok? && |r.value| == (if digits == 0 then 1 else digits)
      && (forall i :: 0 <= i < |r.value| ==> '0' <= r.value[i] <= '9')
      && Pow(10, digits) >= 1
      && DecimalValue(r.value) == Value(mac[o..o + 4]) % 0x8000_0000 % Pow(10, digits)
  {
    hide Truncate, Code;
    var mac := hmac(secret, message);
    LimitIsPower();
    ValueBound(message);
    BigEndianValue(counter, 8);
    ValueInjective(BigEndian(counter, 8), message);
    TruncateValue(mac);
    CodeShape(mac, digits);
    TenPowers(digits);
  }

  lemma {:induction false} TenPowers(d: nat)
    ensures Pow10(d) == Pow(10, d)
  {
    if d == 0 {
    } else {
      TenPowers(d - 1);
    }
  }

  /** A counter throws exactly when no 8-byte message spells it. */
  lemma {:induction false} HotpThrowsIff(hmac: Hmac, secret: seq<Byte>, counter: int, digits: nat)
    ensures Hotp(hmac, secret, counter, digits) == Err(RangeError) <==>
            !exists message: seq<Byte> :: |message| == 8 && Value(message) == counter
  {
    LimitIsPower();
    if 0 <= counter < COUNTER_LIMIT {
      BigEndianValue(counter, 8);
      assert |BigEndian(counter, 8)| == 8;
    } else {
      forall message: seq<Byte> | |message| == 8
        ensures Value(message) != counter
      {
        ValueBound(message);
      }
    }
  }

  // ---------------------------------------------------------------------------
  // TOTP
  // ---------------------------------------------------------------------------

  /** `Math.floor(t / step)` */
  function CounterAt(t: int, step: int): int
    requires step != 0
  {
    if step > 0 then t / step else (-t) / (-step)
  }

  /** The quotient of a zero step is not finite, which `BigInt` refuses. */
  function GenerateTotp(hmac: Hmac, secret: seq<Byte>, t: int, digits: nat, step: int): Result<string, TotpError> {
    if step == 0 then Err(RangeError) else Hotp(hmac, secret, CounterAt(t, step), digits)
  }

  /** The code of a time is that of the step it falls into, also for a negative step; a zero step throws. */
  lemma {:induction false} TotpOfStep(hmac: Hmac, secret: seq<Byte>, t: int, digits: nat, step: int, c: int)
    requires step > 0 ==> c * step <= t < c * step + step
    requires step < 0 ==> c * step >= t > c * step + step
    ensures GenerateTotp(hmac, secret, t, digits, step)
         == if step == 0 then Err(RangeError) else Hotp(hmac, secret, c, digits)
  {
    hide Hotp;
    if step > 0 {
      DivModUnique(t, c, t - c * step, step);
    } else if step < 0 {
      assert c * (-step) == -(c * step);
      DivModUnique(-t, c, c * step - t, -step);
    }
  }

  /** Some counter of the window, all valid from its start on, has this code. */
  ghost predicate MatchInWindow(hmac: Hmac, code: string, secret: seq<Byte>, counter: int, digits: nat, window: int) {
    InRange(counter - window) &&
    exists c :: counter - window <= c <= counter + window && Hotp(hmac, secret, c, digits) == Ok(code)
  }

  /**
   * Accepts exactly the codes of the window; a window that leaves the 64-bit counters before a match
   * is found is an error, not a refusal.
   */
  method VerifyTotp(hmac: Hmac, code: string, secret: seq<Byte>, t: int, digits: nat, step: int, window: int)
    returns (r: Result<bool, TotpError>)
    ensures step == 0 ==> r == if window < 0 then Ok(false) else Err(RangeError)
    ensures step != 0 ==>
      (r == Ok(true) <==> MatchInWindow(hmac, code, secret, CounterAt(t, step), digits, window))
    ensures step != 0 ==>
      (r == Ok(false) <==>
        && !MatchInWindow(hmac, code, secret, CounterAt(t, step), digits, window)
        && (window < 0 || (InRange(CounterAt(t, step) - window) && InRange(CounterAt(t, step) + window))))
  {
    if step == 0 {
      return if window < 0 then Ok(false) else Err(RangeError);
    }
    var counter := CounterAt(t, step);
    var i := -window;
    while i <= window
      invariant -window <= i
      invariant window >= 0 ==> i <= window + 1
      invariant forall c :: counter - window <= c < counter + i ==> Hotp(hmac, secret, c, digits).Ok?
      invariant forall c :: counter - window <= c < counter + i ==> Hotp(hmac, secret, c, digits) != Ok(code)
    {
      var candidate := Hotp(hmac, secret, counter + i, digits);
      if candidate.Err? {
        assert i > -window ==> Hotp(hmac, secret, counter - window, digits).Ok?;
        return Err(RangeError);
      }
      if candidate.value == code {
        assert i > -window ==> Hotp(hmac, secret, counter - window, digits).Ok?;
        return Ok(true);
      }
      i := i + 1;
    }
    assert window >= 0 ==> Hotp(hmac, secret, counter - window, digits).Ok?;
    assert window >= 0 ==> Hotp(hmac, secret, counter + window, digits).Ok?;
    r := Ok(false);
  }

  /** Counters of times at most k steps apart differ by at most k. */
  lemma {:induction false} CountersClose(t: int, t': int, step: int, k: nat)
    requires step > 0 && t <= t' <= t + k * step
    ensures CounterAt(t, step) <= CounterAt(t', step) <= CounterAt(t, step) + k
  {
    var c, c' := t / step, t' / step;
    if c' < c {
      MulDifference(c, c', step);
      MulAtLeast(c - c', step);
    }
    assert (c + k) * step == c * step + k * step;
    if c' > c + k {
      MulDifference(c', c + k, step);
      MulAtLeast(c' - (c + k), step);
    }
  }

  /** Counters of times at least k + 1 steps apart differ by more than k. */
  lemma {:induction false} CountersFar(t: int, t': int, step: int, k: nat)
    requires step > 0 && t' >= t + (k + 1) * step
    ensures CounterAt(t', step) > CounterAt(t, step) + k
  {
    var c, c' := t / step, t' / step;
    if c' <= c + k {
      MulDifference(c + k, c', step);
      if c + k > c' { MulAtLeast(c + k - c', step); }
    }
  }

  /**
   * Clock skew: a code generated at t is accepted at every t' at most `window` steps away whose window
   * starts at a valid counter.
   */
  lemma {:induction false} SkewAccepted(hmac: Hmac, secret: seq<Byte>, t: int, t': int, digits: nat, step: int,
                                        window: nat, code: string)
    requires step > 0 && GenerateTotp(hmac, secret, t, digits, step) == Ok(code)
    requires t - window * step <= t' <= t + window * step
    requires InRange(CounterAt(t', step) - window)
    ensures MatchInWindow(hmac, code, secret, CounterAt(t', step), digits, window)
  {
    if t <= t' {
      CountersClose(t, t', step, window);
    } else {
      CountersClose(t', t, step, window);
    }
    assert Hotp(hmac, secret, CounterAt(t, step), digits) == Ok(code);
  }

  /**
   * Replay: from window + 1 steps on in either direction, a generated code is accepted only if some other
   * counter of the window has the same code.
   */
  lemma {:induction false} StaleOnlyByCollision(hmac: Hmac, secret: seq<Byte>, t: int, t': int, digits: nat,
                                                step: int, window: nat, code: string)
    requires step > 0 && GenerateTotp(hmac, secret, t, digits, step) == Ok(code)
    requires t' >= t + (window + 1) * step || t >= t' + (window + 1) * step
    requires MatchInWindow(hmac, code, secret, CounterAt(t', step), digits, window)
    ensures
      var own := CounterAt(t, step);
      exists c :: c != own && Hotp(hmac, secret, c, digits) == Hotp(hmac, secret, own, digits)
  {
    if t' >= t + (window + 1) * step {
      CountersFar(t, t', step, window);
    } else {
      CountersFar(t', t, step, window);
    }
  }
}
