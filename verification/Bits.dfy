/** Bitwise AND and OR of natural numbers, defined bit by bit, powers of two, and the facts about them and
    about division that the kernels use. */
module Bits {

  function And(x: nat, y: nat): (r: nat)
    ensures r <= x && r <= y
  {
    if x == 0 || y == 0 then 0
    else (if x % 2 == 1 && y % 2 == 1 then 1 else 0) + 2 * And(x / 2, y / 2)
  }

  function Or(x: nat, y: nat): (r: nat)
    ensures r >= x && r >= y
  {
    if x == 0 && y == 0 then 0
    else (if x % 2 == 1 || y % 2 == 1 then 1 else 0) + 2 * Or(x / 2, y / 2)
  }

  function Pow2(n: nat): (r: nat)
    ensures r > 0
  {
    if n == 0 then 1 else 2 * Pow2(n - 1)
  }

  lemma {:induction false} AndEven(x: nat, y: nat)
    ensures And(x, 2 * y) == 2 * And(x / 2, y)
  {
  }

  lemma {:induction false} AndOdd(x: nat, y: nat)
    ensures And(x, 1 + 2 * y) == x % 2 + 2 * And(x / 2, y)
  {
  }

  /** Quotient and remainder are the only pair that fits. */
  lemma {:induction false} DivisionUnique(d: int, q: int, r: int, q': int, r': int)
    requires 0 <= r < d && 0 <= r' < d && d * q + r == d * q' + r'
    ensures q == q' && r == r'
  {
    assert d * (q - q') == r' - r;
    if q >= q' + 1 {
      MulMonotone(d, 1, q - q');
    } else if q' >= q + 1 {
      MulMonotone(d, q - q', -1);
    }
  }

  lemma {:induction false} MulMonotone(d: int, a: int, b: int)
    requires d >= 0 && a <= b
    ensures d * a <= d * b
  {
  }

  lemma {:induction false} QuotientIs(x: int, d: int, q: int, r: int)
    requires x == d * q + r && 0 <= r < d
    ensures x / d == q && x % d == r
  {
    DivisionUnique(d, q, r, x / d, x % d);
  }

  lemma {:induction false} AndTimes4(x: nat, y: nat)
    ensures And(x, 4 * y) == 4 * And(x / 4, y)
  {
    hide And;
    AndEven(x, 2 * y);
    AndEven(x / 2, y);
    assert x / 2 / 2 == x / 4;
  }

  lemma {:induction false} AndTimes16(x: nat, y: nat)
    ensures And(x, 16 * y) == 16 * And(x / 16, y)
  {
    hide And;
    AndTimes4(x, 4 * y);
    AndTimes4(x / 4, y);
    assert x / 4 / 4 == x / 16;
  }

  lemma {:induction false} AndTimes128(x: nat, y: nat)
    ensures And(x, 128 * y) == 128 * And(x / 128, y)
  {
    hide And;
    AndTimes16(x, 8 * y);
    AndTimes4(x / 16, 2 * y);
    AndEven(x / 64, y);
    assert x / 16 / 4 == x / 64 && x / 64 / 2 == x / 128;
  }

  /** Masking the top bit of the lowest byte, and the rest of the mask on the bytes above. */
  lemma {:induction false} AndByteTop(w: nat, m: nat)
    ensures And(w, 128 + 256 * m) == (if w % 256 >= 128 then 128 else 0) + 256 * And(w / 256, m)
  {
    hide And;
    AndTimes128(w, 1 + 2 * m);
    AndOdd(w / 128, m);
    assert w / 128 / 2 == w / 256 && w / 128 % 2 == w % 256 / 128;
  }

  /** OR of a multiple of a power of two with anything below that power is their sum. */
  lemma {:induction false} OrDisjoint(high: nat, low: nat, k: nat)
    requires low < Pow2(k)
    ensures Or(high * Pow2(k), low) == high * Pow2(k) + low
    decreases k
  {
    if k == 0 {
      OrZero(high);
      assert high * Pow2(0) == high;
    } else {
      var p := Pow2(k - 1);
      assert high * Pow2(k) == 2 * (high * p);
      OrDisjoint(high, low / 2, k - 1);
      assert (high * Pow2(k)) / 2 == high * p;
      assert Or(high * Pow2(k), low) == low % 2 + 2 * Or(high * p, low / 2);
    }
  }

  lemma {:induction false} OrZero(x: nat)
    ensures Or(x, 0) == x
  {
    if x != 0 {
      OrZero(x / 2);
    }
  }

  lemma {:induction false} Pow2Add(a: nat, b: nat)
    ensures Pow2(a + b) == Pow2(a) * Pow2(b)
    decreases a
  {
    if a > 0 {
      Pow2Add(a - 1, b);
      Doubled(Pow2(a - 1), Pow2(b));
    }
  }

  lemma {:induction false} Doubled(x: nat, y: nat)
    ensures 2 * (x * y) == (2 * x) * y
  {
  }

  lemma {:induction false} Pow2Monotone(a: nat, b: nat)
    requires a <= b
    ensures Pow2(a) <= Pow2(b)
    decreases b
  {
    if a < b {
      Pow2Monotone(a, b - 1);
    }
  }

  lemma {:induction false} Pow2Widths()
    ensures Pow2(32) == 0x1_0000_0000
    ensures Pow2(64) == 0x1_0000_0000_0000_0000
    ensures Pow2(128) == 0x1_0000_0000_0000_0000_0000_0000_0000_0000
  {
    Pow2Square(8, 0x100);
    Pow2Square(16, 0x1_0000);
    Pow2Square(32, 0x1_0000_0000);
    Pow2Square(64, 0x1_0000_0000_0000_0000);
  }

  lemma {:induction false} Pow2Square(n: nat, p: nat)
    requires Pow2(n) == p
    ensures Pow2(2 * n) == p * p
  {
    Pow2Add(n, n);
  }

  /** Reducing before adding changes nothing modulo `m`. */
  lemma {:induction false} ModPlus(x: int, y: int, m: int)
    requires m > 0
    ensures (x % m + y) % m == (x + y) % m
  {
    var q, r := x / m, x % m;
    var q', r' := (r + y) / m, (r + y) % m;
    assert x == m * q + r && r + y == m * q' + r';
    assert m * q + m * q' == m * (q + q');
    QuotientIs(x + y, m, q + q', r');
  }

  /** Adding a multiple of `m` changes nothing modulo `m`. */
  lemma {:induction false} ModMultiple(x: int, k: int, m: int)
    requires m > 0
    ensures (x + m * k) % m == x % m
  {
    var q, r := x / m, x % m;
    assert x == m * q + r && m * q + m * k == m * (q + k);
    QuotientIs(x + m * k, m, q + k, r);
  }

  lemma {:induction false} OrBound(x: nat, y: nat, k: nat)
    requires x < Pow2(k) && y < Pow2(k)
    ensures Or(x, y) < Pow2(k)
    decreases k
  {
    if k > 0 && (x > 0 || y > 0) {
      OrBound(x / 2, y / 2, k - 1);
    }
  }
}
