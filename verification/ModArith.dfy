/** Powers and congruences over unbounded integers. */
module ModArith {
  function Pow(b: int, e: nat): int {
    if e == 0 then 1 else b * Pow(b, e - 1)
  }

  lemma {:induction false} PowPositive(b: int, e: nat)
    requires b >= 1
    ensures Pow(b, e) >= 1
  {
    if e == 0 {
    } else {
      PowPositive(b, e - 1);
      MulAtLeast(Pow(b, e - 1), b);
    }
  }

  function Pow2(w: nat): nat
    ensures Pow2(w) >= 1
  {
    PowPositive(2, w);
    Pow(2, w)
  }

  lemma {:induction false} PowAdd(b: int, x: nat, y: nat)
    ensures Pow(b, x + y) == Pow(b, x) * Pow(b, y)
  {
    if x == 0 {
    } else {
      PowAdd(b, x - 1, y);
      MulAssoc(b, Pow(b, x - 1), Pow(b, y));
    }
  }

  lemma {:induction false} PowMul(b: int, x: nat, y: nat)
    ensures x * y >= 0
    ensures Pow(Pow(b, x), y) == Pow(b, x * y)
  {
    if y == 0 {
    } else {
      PowMul(b, x, y - 1);
      assert x * y == x + x * (y - 1);
      PowAdd(b, x, x * (y - 1));
    }
  }

  lemma {:induction false} PowOfProduct(a: int, b: int, e: nat)
    ensures Pow(a * b, e) == Pow(a, e) * Pow(b, e)
  {
    if e == 0 {
    } else {
      PowOfProduct(a, b, e - 1);
      MulSwap(a, b, Pow(a, e - 1), Pow(b, e - 1));
    }
  }

  lemma {:induction false} MulSwap(a: int, b: int, p: int, q: int)
    ensures (a * b) * (p * q) == (a * p) * (b * q)
  {
    assert b * (p * q) == p * (b * q);
    MulAssoc(a, b, p * q);
    MulAssoc(a, p, b * q);
  }

  lemma {:induction false} PowOfOne(e: nat)
    ensures Pow(1, e) == 1
  {
    if e == 0 {
    } else {
      PowOfOne(e - 1);
    }
  }

  lemma {:induction false} MulAssoc(a: int, b: int, c: int)
    ensures (a * b) * c == a * (b * c)
  {
  }

  /** a and b leave the same remainder modulo m; with a named quotient, which is what the proofs use. */
  ghost predicate Congruent(a: int, b: int, m: int)
    requires m >= 1
  {
    a % m == b % m
  }

  lemma {:induction false} AddMultiple(x: int, k: int, m: int)
    requires m >= 1
    ensures (x + k * m) % m == x % m
    decreases if k < 0 then -k else k
  {
    if k > 0 {
      AddMultiple(x, k - 1, m);
      assert x + k * m == (x + (k - 1) * m) + m;
      AddOnce(x + (k - 1) * m, m);
    } else if k < 0 {
      AddMultiple(x, k + 1, m);
      assert x + (k + 1) * m == (x + k * m) + m;
      AddOnce(x + k * m, m);
    }
  }

  lemma {:induction false} AddOnce(x: int, m: int)
    requires m >= 1
    ensures (x + m) % m == x % m
  {
    var q, r := x / m, x % m;
    assert x + m == (q + 1) * m + r;
    DivModUnique(x + m, q + 1, r, m);
  }

  lemma {:induction false} DivModUnique(x: int, q: int, r: int, m: int)
    requires m >= 1 && 0 <= r < m && x == q * m + r
    ensures x / m == q && x % m == r
  {
    var q', r' := x / m, x % m;
    assert x == q' * m + r';
    MulDifference(q, q', m);
    if q > q' {
      MulAtLeast(q - q', m);
    } else if q < q' {
      MulDifference(q', q, m);
      MulAtLeast(q' - q, m);
    }
  }

  lemma {:induction false} MulDifference(a: int, b: int, m: int)
    ensures (a - b) * m == a * m - b * m
  {
  }

  lemma {:induction false} MulAtLeast(k: int, m: int)
    requires k >= 1 && m >= 0
    ensures k * m >= m
  {
    MulDifference(k, 1, m);
  }

  lemma {:induction false} CongruentBy(a: int, b: int, k: int, m: int)
    requires m >= 1 && a == b + k * m
    ensures Congruent(a, b, m)
  {
    AddMultiple(b, k, m);
  }

  lemma {:induction false} Quotient(a: int, b: int, m: int) returns (k: int)
    requires m >= 1 && Congruent(a, b, m)
    ensures a == b + k * m
  {
    k := a / m - b / m;
    assert a == (a / m) * m + a % m && b == (b / m) * m + b % m;
    assert (a / m - b / m) * m == (a / m) * m - (b / m) * m;
  }

  lemma {:induction false} CongruentDivisor(a: int, b: int, m: int, k: int)
    requires m >= 1 && m * k >= 1 && Congruent(a, b, m * k)
    ensures Congruent(a, b, m)
  {
    var q := Quotient(a, b, m * k);
    MulAssoc(q, k, m);
    assert q * (m * k) == (q * k) * m;
    CongruentBy(a, b, q * k, m);
  }

  /** A multiple of two coprime numbers is one of their product. */
  lemma {:induction false} JoinQuotients(d: int, m: int, k: int, i: int, j: int, q: int, r: int)
    requires m * i + k * j == 1 && d == q * m && d == r * k
    ensures d == (r * i + q * j) * (m * k)
  {
    Distribute(d, m * i, k * j);
    Exchange(r, k, m, i);
    MulSwap(q, m, j, k);
    Distribute(m * k, r * i, q * j);
  }

  lemma {:induction false} Distribute(a: int, b: int, c: int)
    ensures a * (b + c) == a * b + a * c && (b + c) * a == a * (b + c)
  {
  }

  lemma {:induction false} Exchange(r: int, k: int, m: int, i: int)
    ensures (r * k) * (m * i) == (r * i) * (m * k)
  {
    assert m * i == i * m;
    MulSwap(r, k, i, m);
    assert k * m == m * k;
  }

  /** Congruence modulo two coprime numbers is congruence modulo their product. */
  lemma {:induction false} CongruentJoin(a: int, b: int, m: int, k: int, i: int, j: int)
    requires m >= 1 && k >= 1 && m * k >= 1 && m * i + k * j == 1
    requires Congruent(a, b, m) && Congruent(a, b, k)
    ensures Congruent(a, b, m * k)
  {
    var q := Quotient(a, b, m);
    var r := Quotient(a, b, k);
    hide Congruent;
    JoinQuotients(a - b, m, k, i, j, q, r);
    CongruentBy(a, b, r * i + q * j, m * k);
  }

  lemma {:induction false} ModSelf(a: int, m: int)
    requires m >= 1
    ensures Congruent(a % m, a, m)
  {
    CongruentBy(a, a % m, a / m, m);
  }

  lemma {:induction false} CongruentMul(a: int, a': int, b: int, b': int, m: int)
    requires m >= 1 && Congruent(a, a', m) && Congruent(b, b', m)
    ensures Congruent(a * b, a' * b', m)
  {
    var j := Quotient(a, a', m);
    var k := Quotient(b, b', m);
    hide Congruent;
    calc {
      a * b;
      (a' + j * m) * (b' + k * m);
      a' * b' + a' * (k * m) + (j * m) * b' + (j * m) * (k * m);
      a' * b' + (a' * k + j * b' + j * m * k) * m;
    }
    CongruentBy(a * b, a' * b', a' * k + j * b' + j * m * k, m);
  }

  lemma {:induction false} CongruentSub(a: int, a': int, b: int, b': int, m: int)
    requires m >= 1 && Congruent(a, a', m) && Congruent(b, b', m)
    ensures Congruent(a - b, a' - b', m)
  {
    var j := Quotient(a, a', m);
    var k := Quotient(b, b', m);
    assert a - b == a' - b' + (j - k) * m;
    CongruentBy(a - b, a' - b', j - k, m);
  }

  lemma {:induction false} CongruentPow(a: int, b: int, e: nat, m: int)
    requires m >= 1 && Congruent(a, b, m)
    ensures Congruent(Pow(a, e), Pow(b, e), m)
  {
    if e == 0 {
    } else {
      CongruentPow(a, b, e - 1, m);
      CongruentMul(a, b, Pow(a, e - 1), Pow(b, e - 1), m);
    }
  }
}
