/**
 Portable 128-bit integers (core/api/det/det_int128.hpp): two 64-bit limbs, every operator written
 with 64-bit wrap-around, proved to be arithmetic modulo 2^128 (unsigned) and wrapping two's
 complement (signed).
 */
module Int128 {
  import Bits

  const W32: int := 0x1_0000_0000
  const W64: int := 0x1_0000_0000_0000_0000
  const W128: int := 0x1_0000_0000_0000_0000_0000_0000_0000_0000

  type u64 = x: int | 0 <= x < 0x1_0000_0000_0000_0000

  /** Arithmetic on `std::uint64_t` wraps. */
  function Wrap64(x: int): u64 {
    x % W64
  }

  datatype U128 = U128(lo: u64, hi: u64)

  function Value(a: U128): (v: int)
    ensures 0 <= v < W128
  {
    a.lo + W64 * a.hi
  }

  function OfU64(x: u64): U128 {
    U128(x, 0)
  }

  /** The limbs of a number: the inverse of `Value`. */
  function Of(v: int): (a: U128)
    requires 0 <= v < W128
    ensures Value(a) == v
  {
    U128(v % W64, v / W64)
  }

  lemma {:induction false} ValueInjective(a: U128, b: U128)
    requires Value(a) == Value(b)
    ensures a == b
  {
  }

  // ----- order, addition, complement, subtraction -----

  predicate Ge(a: U128, b: U128) {
    if a.hi != b.hi then a.hi > b.hi else a.lo >= b.lo
  }

  predicate Lt(a: U128, b: U128) {
    if a.hi != b.hi then a.hi < b.hi else a.lo < b.lo
  }

  lemma {:induction false} OrderIsValueOrder(a: U128, b: U128)
    ensures Ge(a, b) <==> Value(a) >= Value(b)
    ensures Lt(a, b) <==> Value(a) < Value(b)
    ensures a == b <==> Value(a) == Value(b)
  {
  }

  function Add(a: U128, b: U128): U128 {
    var low := Wrap64(a.lo + b.lo);
    U128(low, Wrap64(a.hi + b.hi + (if low < a.lo then 1 else 0)))
  }

  function Not(a: U128): U128 {
    U128(W64 - 1 - a.lo, W64 - 1 - a.hi)
  }

  function Sub(a: U128, b: U128): U128 {
    Add(Add(a, Not(b)), OfU64(1))
  }

  lemma {:induction false} AddIsModular(a: U128, b: U128)
    ensures Value(Add(a, b)) == (Value(a) + Value(b)) % W128
  {
    var carry := if a.lo + b.lo >= W64 then 1 else 0;
    assert Wrap64(a.lo + b.lo) == a.lo + b.lo - carry * W64;
    var high := a.hi + b.hi + carry;
    var k := if high >= W64 then 1 else 0;
    assert Wrap64(high) == high - k * W64;
    var low: int := Wrap64(a.lo + b.lo);
    hide Wrap64;
    Bits.QuotientIs(Value(a) + Value(b), W128, k, low + W64 * (high - k * W64));
  }

  lemma {:induction false} NotIsComplement(a: U128)
    ensures Value(Not(a)) == W128 - 1 - Value(a)
  {
  }

  lemma {:induction false} SubIsModular(a: U128, b: U128)
    ensures Value(Sub(a, b)) == (Value(a) - Value(b)) % W128
  {
    AddIsModular(a, Not(b));
    NotIsComplement(b);
    AddIsModular(Add(a, Not(b)), OfU64(1));
    hide Value, Add, Not;
    var x := Value(a) + Value(Not(b));
    Bits.ModPlus(x, 1, W128);
    Bits.ModMultiple(Value(a) - Value(b), 1, W128);
  }

  // ----- shifts -----

  /** `x >> s` and `x << s` on one limb, for the shift counts C++ defines. */
  function Shr64(x: u64, s: nat): (r: u64)
    requires s < 64
  {
    ShrRange(x, s);
    x / Bits.Pow2(s)
  }

  lemma {:induction false} ShrRange(x: int, s: nat)
    requires 0 <= x
    ensures 0 <= x / Bits.Pow2(s) <= x
  {
    var p := Bits.Pow2(s);
    var q := x / p;
    assert x == p * q + x % p;
    if q < 0 {
      Bits.MulMonotone(p, q, -1);
    } else {
      Bits.MulMonotone(q, 1, p);
    }
  }

  function Shl64(x: u64, s: nat): u64
    requires s < 64
  {
    Wrap64(x * Bits.Pow2(s))
  }

  /** A 64-bit word cut at bit `64 - s`: the high part shifted down, the low part shifted up. */
  lemma {:induction false} CutWord(x: u64, s: nat, p: nat, q: nat) returns (high: nat, low: nat)
    requires 0 < s < 64 && p == Bits.Pow2(s) && q == Bits.Pow2(64 - s)
    ensures p * q == W64 && x == q * high + low && low < q && high < p && low * p < W64
    ensures Shl64(x, s) == low * p && Shr64(x, 64 - s) == high
  {
    Bits.Pow2Widths();
    Bits.Pow2Add(s, 64 - s);
    hide Bits.Pow2;
    high, low := Cut(x, p, q);
  }

  lemma {:induction false} Cut(x: u64, p: nat, q: nat) returns (high: nat, low: nat)
    requires p > 0 && q > 0 && p * q == W64
    ensures x == q * high + low && low < q && high < p && low * p < W64
    ensures x / q == high && x * p % W64 == low * p
  {
    CutAlgebra(x, p, q);
    high, low := x / q, x % q;
    QuotientBounds(x, p, q, high, low);
  }

  lemma {:induction false} CutAlgebra(x: u64, p: nat, q: nat)
    requires p > 0 && q > 0 && p * q == W64
    ensures 0 <= x / q < p && x * p / W64 == x / q && x * p % W64 == (x % q) * p
  {
    var l, m := x / q, x % q;
    assert x == q * l + m;
    QuotientBounds(x, p, q, l, m);
    Scaled(q, l, m, p);
    Bits.QuotientIs(x * p, W64, l, m * p);
  }

  lemma {:induction false} Scaled(q: int, l: int, m: int, p: int)
    ensures (q * l + m) * p == (p * q) * l + m * p
  {
  }

  lemma {:induction false} QuotientBounds(x: int, p: int, q: int, l: int, m: int)
    requires p > 0 && q > 0 && 0 <= x < p * q && x == q * l + m && 0 <= m < q
    ensures 0 <= l < p && 0 <= m * p < p * q
  {
    if l < 0 {
      Bits.MulMonotone(q, l, -1);
    }
    if l >= p {
      Bits.MulMonotone(q, p, l);
    }
    Bits.MulMonotone(p, 0, m);
    Bits.MulMonotone(p, m + 1, q);
    assert p * (m + 1) == p * m + p;
  }

  function Shr(a: U128, s: nat): U128 {
    if s == 0 then a
    else if s >= 128 then U128(0, 0)
    else if s >= 64 then U128(Shr64(a.hi, s - 64), 0)
    else U128(OrShifted(Shr64(a.lo, s), a.hi, 64 - s), Shr64(a.hi, s))
  }

  function Shl(a: U128, s: nat): U128 {
    if s == 0 then a
    else if s >= 128 then U128(0, 0)
    else if s >= 64 then U128(0, Shl64(a.lo, s - 64))
    else U128(Shl64(a.lo, s), OrShifted(Shr64(a.lo, 64 - s), a.hi, s))
  }

  /** `low | (high << s)`, which both shifts use to carry bits across the limbs. */
  function OrShifted(low: u64, high: u64, s: nat): (r: u64)
    requires 0 < s < 64
  {
    OrFits(Shl64(high, s), low);
    Bits.Or(Shl64(high, s), low)
  }

  lemma {:induction false} OrFits(x: u64, y: u64)
    ensures Bits.Or(x, y) < W64
  {
    Bits.Pow2Widths();
    Bits.OrBound(x, y, 64);
  }

  lemma {:induction false} ShrAlgebra(p: int, q: int, l: int, m: int, h: int, r: int)
    requires p * q == W64 && 0 <= m < p
    ensures ((p * l + m) + W64 * (p * h + r)) / p == (r * q + l) + W64 * h
  {
    assert W64 * (p * h + r) == p * (W64 * h) + p * (q * r) by {
      assert W64 * r == p * (q * r);
    }
    assert p * l + p * (W64 * h) + p * (q * r) == p * ((r * q + l) + W64 * h);
    Bits.QuotientIs((p * l + m) + W64 * (p * h + r), p, (r * q + l) + W64 * h, m);
  }

  lemma {:induction false} ShrLow(a: U128, s: nat)
    requires 0 < s < 64
    ensures Value(Shr(a, s)) == Value(a) / Bits.Pow2(s)
  {
    var p, q := Bits.Pow2(s), Bits.Pow2(64 - s);
    var l, m := CutWord(a.lo, 64 - s, q, p);
    var h, r := CutWord(a.hi, 64 - s, q, p);
    Bits.OrDisjoint(r, l, 64 - s);
    hide Bits.Pow2, Bits.Or, Shl64, Shr64;
    ShrAlgebra(p, q, l, m, h, r);
  }

  lemma {:induction false} ShrHighAlgebra(lo: int, t: int, h: int, r: int)
    requires t > 0 && 0 <= lo < W64 && 0 <= r < t
    ensures (lo + W64 * (t * h + r)) / (W64 * t) == h
  {
    assert W64 * (t * h + r) == (W64 * t) * h + W64 * r;
    Bits.QuotientIs(lo + W64 * (t * h + r), W64 * t, h, W64 * r + lo);
  }

  lemma {:induction false} ShrHigh(a: U128, s: nat)
    requires 64 <= s < 128
    ensures Value(Shr(a, s)) == Value(a) / Bits.Pow2(s)
  {
    hide Bits.Pow2;
    var t := Bits.Pow2(s - 64);
    Bits.Pow2Widths();
    Bits.Pow2Add(64, s - 64);
    HighQuotient(a.lo, a.hi, t, a.hi / t, a.hi % t);
  }

  lemma {:induction false} HighQuotient(lo: int, hi: int, t: int, h: int, r: int)
    requires t > 0 && 0 <= lo < W64 && hi == t * h + r && 0 <= r < t
    ensures (lo + W64 * hi) / (W64 * t) == h
  {
    ShrHighAlgebra(lo, t, h, r);
  }

  /** A right shift is division by a power of two, whatever the shift count. */
  lemma {:induction false} ShrExact(a: U128, s: nat)
    ensures Value(Shr(a, s)) == Value(a) / Bits.Pow2(s)
  {
    if s == 0 {
      assert Bits.Pow2(0) == 1;
    } else if s < 64 {
      ShrLow(a, s);
    } else if s < 128 {
      ShrHigh(a, s);
    } else {
      Bits.Pow2Widths();
      Bits.Pow2Monotone(128, s);
      hide Bits.Pow2;
      Bits.QuotientIs(Value(a), Bits.Pow2(s), 0, Value(a));
    }
  }

  lemma {:induction false} ShlAlgebra(p: int, q: int, l: int, m: int, u: int, v: int)
    requires p * q == W64
    ensures ((q * l + m) + W64 * (q * u + v)) * p == (m * p + W64 * (v * p + l)) + W128 * u
  {
    assert (q * l) * p == W64 * l;
    assert (W64 * (q * u)) * p == W128 * u;
  }

  lemma {:induction false} ShlLow(a: U128, s: nat)
    requires 0 < s < 64
    ensures Value(Shl(a, s)) == Value(a) * Bits.Pow2(s) % W128
  {
    var p, q := Bits.Pow2(s), Bits.Pow2(64 - s);
    var l, m := CutWord(a.lo, s, p, q);
    var u, v := CutWord(a.hi, s, p, q);
    Bits.OrDisjoint(v, l, s);
    var r := Value(Shl(a, s));
    hide Bits.Pow2, Bits.Or, Shl64, Shr64;
    ShlAlgebra(p, q, l, m, u, v);
    assert r == m * p + W64 * (v * p + l);
    Bits.QuotientIs(Value(a) * p, W128, u, r);
  }

  lemma {:induction false} ShlHighAlgebra(lo: int, hi: int, t: int, k: int, w: int)
    requires lo * t == W64 * k + w
    ensures (lo + W64 * hi) * (W64 * t) == W64 * w + W128 * (k + hi * t)
  {
    assert lo * (W64 * t) == W64 * (lo * t);
    assert (W64 * hi) * (W64 * t) == W128 * (hi * t);
  }

  lemma {:induction false} ShlHigh(a: U128, s: nat)
    requires 64 <= s < 128
    ensures Value(Shl(a, s)) == Value(a) * Bits.Pow2(s) % W128
  {
    var t := Bits.Pow2(s - 64);
    Bits.Pow2Widths();
    Bits.Pow2Add(64, s - 64);
    hide Bits.Pow2;
    var x := a.lo * t;
    var k, w := x / W64, x % W64;
    ShlHighAlgebra(a.lo, a.hi, t, k, w);
    Bits.QuotientIs(Value(a) * (W64 * t), W128, k + a.hi * t, W64 * w);
  }

  /** A left shift multiplies by a power of two modulo 2^128, whatever the shift count. */
  lemma {:induction false} ShlExact(a: U128, s: nat)
    ensures Value(Shl(a, s)) == Value(a) * Bits.Pow2(s) % W128
  {
    if s == 0 {
      assert Bits.Pow2(0) == 1;
    } else if s < 64 {
      ShlLow(a, s);
    } else if s < 128 {
      ShlHigh(a, s);
    } else {
      ShlAll(Value(a), s);
    }
  }

  lemma {:induction false} ShlAll(v: int, s: nat)
    requires s >= 128
    ensures v * Bits.Pow2(s) % W128 == 0
  {
    hide Bits.Pow2;
    Bits.Pow2Widths();
    Bits.Pow2Add(128, s - 128);
    var t := Bits.Pow2(s - 128);
    assert v * (W128 * t) == W128 * (v * t);
    Bits.QuotientIs(v * (W128 * t), W128, v * t, 0);
  }

  // ----- multiplication -----

  /** `B^n` for the 32-bit limb base. */
  function Base(n: nat): (r: nat)
    ensures r > 0
  {
    if n == 0 then 1 else W32 * Base(n - 1)
  }

  lemma {:induction false} Bases()
    ensures Base(0) == 1 && Base(1) == W32 && Base(2) == W64 && Base(3) == W64 * W32 && Base(4) == W128
  {
    assert Base(2) == W32 * Base(1) && Base(3) == W32 * Base(2) && Base(4) == W32 * Base(3);
  }

  lemma {:induction false} BaseAdd(i: nat, j: nat)
    ensures Base(i + j) == Base(i) * Base(j)
    decreases i
  {
    if i > 0 {
      BaseAdd(i - 1, j);
      Associates(W32, Base(i - 1), Base(j));
    }
  }

  lemma {:induction false} Associates(x: int, y: int, z: int)
    ensures x * (y * z) == (x * y) * z
  {
  }

  /** The number a little-endian limb sequence stands for, its first limb weighing `Base(at)`. */
  function Limbs(r: seq<u64>, at: nat): int {
    if r == [] then 0 else r[0] * Base(at) + Limbs(r[1..], at + 1)
  }

  lemma {:induction false} LimbsUpdate(r: seq<u64>, at: nat, k: nat, x: u64)
    requires k < |r|
    ensures Limbs(r[k := x], at) == Limbs(r, at) + (x - r[k]) * Base(at + k)
  {
    if k == 0 {
      assert r[0 := x][1..] == r[1..];
    } else {
      LimbsUpdate(r[1..], at + 1, k - 1, x);
      assert r[k := x][1..] == r[1..][k - 1 := x];
    }
  }

  lemma {:induction false} LimbsSnoc(r: seq<u64>, at: nat, x: u64)
    ensures Limbs(r + [x], at) == Limbs(r, at) + x * Base(at + |r|)
  {
    if r == [] {
      assert [] + [x] == [x];
      assert Limbs([x], at) == x * Base(at) + Limbs([], at + 1);
    } else {
      assert (r + [x])[1..] == r[1..] + [x];
      LimbsSnoc(r[1..], at + 1, x);
    }
  }

  lemma {:induction false} LimbsConcat(r: seq<u64>, t: seq<u64>, at: nat)
    ensures Limbs(r + t, at) == Limbs(r, at) + Limbs(t, at + |r|)
  {
    if r == [] {
      assert r + t == t;
    } else {
      assert (r + t)[1..] == r[1..] + t;
      LimbsConcat(r[1..], t, at + 1);
    }
  }

  /** Limbs from weight `B^4` on are a multiple of 2^128. */
  lemma {:induction false} HighLimbs(t: seq<u64>, at: nat) returns (k: int)
    requires at >= 4
    ensures Limbs(t, at) == W128 * k
  {
    if t == [] {
      k := 0;
    } else {
      var k' := HighLimbs(t[1..], at + 1);
      Bases();
      BaseAdd(4, at - 4);
      k := t[0] * Base(at - 4) + k';
      assert t[0] * (W128 * Base(at - 4)) == W128 * (t[0] * Base(at - 4));
    }
  }

  /** The four 32-bit limbs of a number, least significant first. */
  function LimbsOf(a: U128): (r: seq<u64>)
    ensures |r| == 4 && forall i :: 0 <= i < 4 ==> r[i] < W32
  {
    [a.lo % W32, a.lo / W32, a.hi % W32, a.hi / W32]
  }

  lemma {:induction false} LimbsOfValue(a: U128)
    ensures Limbs(LimbsOf(a), 0) == Value(a)
  {
    Bases();
    FourLimbs(a.lo % W32, a.lo / W32, a.hi % W32, a.hi / W32);
  }

  lemma {:induction false} FourLimbs(r0: u64, r1: u64, r2: u64, r3: u64)
    ensures Limbs([r0, r1, r2, r3], 0) == r0 + W32 * r1 + W64 * (r2 + W32 * r3)
  {
    Bases();
    var t3: seq<u64>, t2: seq<u64>, t1: seq<u64>, t0: seq<u64> := [r3], [r2, r3], [r1, r2, r3], [r0, r1, r2, r3];
    assert t3[1..] == [] && t2[1..] == t3 && t1[1..] == t2 && t0[1..] == t1;
    assert Limbs(t3, 3) == r3 * Base(3);
    assert Limbs(t2, 2) == r2 * Base(2) + Limbs(t3, 3);
    assert Limbs(t1, 1) == r1 * Base(1) + Limbs(t2, 2);
  }

  /** One accumulator step: a limb times a limb, plus what stands there, plus the carry, fits 64 bits. */
  lemma {:induction false} AccumulatorFits(r: int, x: int, y: int, carry: int)
    requires 0 <= r < W32 && 0 <= x < W32 && 0 <= y < W32 && 0 <= carry < W32
    ensures 0 <= r + x * y + carry < W64
  {
    Bits.MulMonotone(x, 0, y);
    Bits.MulMonotone(x, y, W32 - 1);
    Bits.MulMonotone(W32 - 1, x, W32 - 1);
  }

  /** One turn of the inner loop, on the numbers the limbs stand for. */
  lemma {:induction false} InnerStep(r: seq<u64>, i: nat, j: nat, x: u64, b: seq<u64>, carry: u64, start: int)
    requires |r| == 4 && |b| == 4 && i + j < 4
    requires Limbs(r, 0) + carry * Base(i + j) == start + (x * Base(i)) * Limbs(b[..j], 0)
    requires r[i + j] + x * b[j] + carry < W64
    ensures var acc := r[i + j] + x * b[j] + carry;
      Limbs(r[i + j := acc % W32], 0) + (acc / W32) * Base(i + j + 1) == start + (x * Base(i)) * Limbs(b[..j + 1], 0)
  {
    var acc := r[i + j] + x * b[j] + carry;
    var low, high := acc % W32, acc / W32;
    LimbsUpdate(r, 0, i + j, low);
    assert b[..j + 1] == b[..j] + [b[j]];
    LimbsSnoc(b[..j], 0, b[j]);
    BaseAdd(i, j);
    BaseNext(i + j);
    hide Limbs, Base;
    InnerAlgebra(low, high, r[i + j], x, b[j], carry, Base(i), Base(j), Base(i + j));
    RowAlgebra(x, Base(i), Limbs(b[..j], 0), b[j] * Base(j));
  }

  lemma {:induction false} RowAlgebra(x: int, bi: int, partial: int, more: int)
    ensures (x * bi) * (partial + more) == (x * bi) * partial + (x * bi) * more
  {
  }

  lemma {:induction false} BaseNext(n: nat)
    ensures Base(n + 1) == W32 * Base(n)
  {
  }

  lemma {:induction false} InnerAlgebra(low: int, high: int, r: int, x: int, y: int, carry: int, bi: int, bj: int, bij: int)
    requires low + W32 * high == r + x * y + carry && bij == bi * bj
    ensures (low - r) * bij + high * (W32 * bij) == carry * bij + (x * bi) * (y * bj)
  {
    assert (x * bi) * (y * bj) == (x * y) * bij;
    assert (low - r) * bij + high * (W32 * bij) == (low + W32 * high - r) * bij;
  }

  /** Joining two 32-bit limbs: `low | (high << 32)`. */
  lemma {:induction false} JoinLimbs(low: u64, high: u64)
    requires low < W32 && high < W32
    ensures Bits.Or(Shl64(high, 32), low) == low + W32 * high
  {
    Bits.Pow2Widths();
    Bits.OrDisjoint(high, low, 32);
    hide Bits.Pow2, Bits.Or;
    Bits.MulMonotone(W32, high, W32 - 1);
    Bits.QuotientIs(high * W32, W64, 0, high * W32);
  }

  /** What one row of the product adds, and what it drops past limb 3. */
  lemma {:induction false} RowDropped(i: nat, x: u64, b: seq<u64>, carry: u64) returns (k: int)
    requires i < 4 && |b| == 4
    ensures (x * Base(i)) * Limbs(b[..4 - i], 0) - carry * Base(4) == (x * Base(i)) * Limbs(b, 0) + W128 * k
  {
    assert b == b[..4 - i] + b[4 - i..];
    LimbsConcat(b[..4 - i], b[4 - i..], 0);
    var high := HighShifted(i, b[4 - i..], 4 - i);
    Bases();
    hide Limbs, Base;
    k := -(x * high) - carry;
    DroppedAlgebra(x, Base(i), Limbs(b[..4 - i], 0), Limbs(b[4 - i..], 4 - i), high, carry);
  }

  lemma {:induction false} DroppedAlgebra(x: int, bi: int, kept: int, rest: int, high: int, carry: int)
    requires bi * rest == W128 * high
    ensures (x * bi) * kept - carry * W128 == (x * bi) * (kept + rest) + W128 * (-(x * high) - carry)
  {
    Associates(x, bi, rest);
    assert (x * bi) * (kept + rest) == (x * bi) * kept + (x * bi) * rest;
    Associates(W128, x, high);
  }

  lemma {:induction false} HighShifted(i: nat, t: seq<u64>, at: nat) returns (k: int)
    requires i + at >= 4
    ensures Base(i) * Limbs(t, at) == W128 * k
  {
    ShiftLimbs(i, t, at);
    k := HighLimbs(t, i + at);
  }

  lemma {:induction false} ShiftLimbs(i: nat, t: seq<u64>, at: nat)
    ensures Base(i) * Limbs(t, at) == Limbs(t, i + at)
  {
    if t != [] {
      ShiftLimbs(i, t[1..], at + 1);
      BaseAdd(i, at);
      Spread(Base(i), t[0], Base(at), Limbs(t[1..], at + 1));
    }
  }

  lemma {:induction false} Spread(b: int, x: int, y: int, z: int)
    ensures b * (x * y + z) == x * (b * y) + b * z
  {
  }

  /** The product modulo 2^128. */
  function Product(a: U128, o: U128): U128 {
    Of(Value(a) * Value(o) % W128)
  }

  /** The inner loop of `operator*`: one limb times the whole other number, added at its weight. */
  method AddRow(r: array<u64>, i: nat, x: u64, y: seq<u64>) returns (carry: u64)
    requires r.Length == 4 && |y| == 4 && i < 4 && x < W32
    requires forall k :: 0 <= k < 4 ==> r[k] < W32 && y[k] < W32
    modifies r
    ensures carry < W32 && forall k :: 0 <= k < 4 ==> r[k] < W32
    ensures Limbs(r[..], 0) + carry * Base(4) == Limbs(old(r[..]), 0) + (x * Base(i)) * Limbs(y[..4 - i], 0)
  {
    ghost var start := Limbs(r[..], 0);
    EmptyLimbs(y[..0]);
    carry := 0;
    var j := 0;
    hide Limbs, Base;
    while i + j < 4
      invariant 0 <= j && i + j <= 4
      invariant carry < W32
      invariant forall k :: 0 <= k < 4 ==> r[k] < W32
      invariant Limbs(r[..], 0) + carry * Base(i + j) == start + (x * Base(i)) * Limbs(y[..j], 0)
    {
      AccumulatorFits(r[i + j], x, y[j], carry);
      var acc: u64 := r[i + j] + x * y[j] + carry;
      InnerStep(r[..], i, j, x, y, carry, start);
      ghost var before: seq<u64> := r[..];
      var low: u64 := acc % W32;
      r[i + j] := low;
      assert r[..] == before[i + j := low];
      carry := acc / W32;
      j := j + 1;
    }
  }

  /** `operator*`: schoolbook multiplication on 32-bit limbs. The array `r` and every accumulator keep
      their widths; what is carried past limb 3 is dropped, and the product is exact modulo 2^128. */
  method Mul(a: U128, o: U128) returns (product: U128)
    ensures product == Product(a, o)
  {
    var x, y := LimbsOf(a), LimbsOf(o);
    LimbsOfValue(a);
    LimbsOfValue(o);
    var r := new u64[4](_ => 0);
    ghost var dropped: int := 0;
    var i := 0;
    ZeroLimbs(r[..]);
    hide Limbs, Base, LimbsOf, Value;
    while i < 4
      invariant i <= 4
      invariant forall k :: 0 <= k < 4 ==> r[k] < W32
      invariant Limbs(r[..], 0) == Limbs(x[..i], 0) * Value(o) + W128 * dropped
    {
      var carry := AddRow(r, i, x[i], y);
      ghost var k := RowDropped(i, x[i], y, carry);
      NextRow(x, i, Value(o));
      dropped := dropped + k;
      i := i + 1;
    }
    assert x[..4] == x;
    product := U128(Joined(r[0], r[1]), Joined(r[2], r[3]));
    assert r[..] == [r[0], r[1], r[2], r[3]];
    ProductValue(r[0], r[1], r[2], r[3], Value(a) * Value(o), dropped, product);
    ValueInjective(product, Product(a, o));
  }

  lemma {:induction false} EmptyLimbs(r: seq<u64>)
    requires r == []
    ensures Limbs(r, 0) == 0
  {
  }

  lemma {:induction false} ZeroLimbs(r: seq<u64>)
    requires |r| == 4 && forall k :: 0 <= k < 4 ==> r[k] == 0
    ensures Limbs(r, 0) == 0
  {
    assert r == [0, 0, 0, 0];
    FourLimbs(0, 0, 0, 0);
  }

  lemma {:induction false} NextRow(x: seq<u64>, i: nat, v: int)
    requires i < 4 == |x|
    ensures Limbs(x[..i + 1], 0) * v == Limbs(x[..i], 0) * v + (x[i] * Base(i)) * v
  {
    assert x[..i + 1] == x[..i] + [x[i]];
    LimbsSnoc(x[..i], 0, x[i]);
  }

  function Joined(low: u64, high: u64): (r: u64)
    requires low < W32 && high < W32
  {
    OrFits(Shl64(high, 32), low);
    Bits.Or(Shl64(high, 32), low)
  }

  lemma {:induction false} ProductValue(r0: u64, r1: u64, r2: u64, r3: u64, exact: int, dropped: int, product: U128)
    requires r0 < W32 && r1 < W32 && r2 < W32 && r3 < W32
    requires product == U128(Joined(r0, r1), Joined(r2, r3))
    requires Limbs([r0, r1, r2, r3], 0) == exact + W128 * dropped
    ensures Value(product) == exact % W128
  {
    hide Limbs, Bits.Or, Shl64;
    JoinLimbs(r0, r1);
    JoinLimbs(r2, r3);
    FourLimbs(r0, r1, r2, r3);
    assert Value(product) == exact + W128 * dropped;
    Bits.ModMultiple(exact, dropped, W128);
    Bits.QuotientIs(Value(product), W128, 0, Value(product));
  }

  // ----- division -----

  /** What one restoring division leaves: all ones and the dividend itself when the divisor is zero. */
  function Quotient(n: U128, den: U128): U128 {
    if Value(den) == 0 then Of(W128 - 1) else
      (DivisionInRange(Value(n), Value(den)); Of(Value(n) / Value(den)))
  }

  function Remainder(n: U128, den: U128): U128 {
    if Value(den) == 0 then n else
      (DivisionInRange(Value(n), Value(den)); Of(Value(n) % Value(den)))
  }

  lemma {:induction false} DivisionInRange(x: int, d: int)
    requires 0 <= x < W128 && 0 < d
    ensures 0 <= x / d < W128 && 0 <= x % d < W128 && x == d * (x / d) + x % d && x % d < d && x % d <= x
  {
    var q, r := x / d, x % d;
    if q < 0 {
      Bits.MulMonotone(d, q, -1);
    }
    if q >= 0 {
      Bits.MulMonotone(q, 1, d);
    }
  }

  /** The partial numbers of the division after the top bits down to bit `k` have been consumed. */
  ghost predicate DividedSoFar(n: int, d: int, k: nat, rem: int, quot: int) {
    var prefix := n / Bits.Pow2(k);
    if d == 0 then rem == prefix && quot == W128 - Bits.Pow2(k)
    else rem == prefix % d && quot == (prefix / d) * Bits.Pow2(k)
  }

  /** Consuming one more bit: the prefix doubles and takes the bit. */
  lemma {:induction false} PrefixBit(n: nat, s: nat)
    ensures n / Bits.Pow2(s) == 2 * (n / Bits.Pow2(s + 1)) + n / Bits.Pow2(s) % 2
  {
    var p := Bits.Pow2(s);
    assert Bits.Pow2(s + 1) == 2 * p;
    hide Bits.Pow2;
    var q, r := n / p, n % p;
    assert n == p * q + r;
    var h, b := q / 2, q % 2;
    assert p * q == (2 * p) * h + p * b by {
      assert q == 2 * h + b;
      assert p * (2 * h + b) == (2 * p) * h + p * b;
    }
    if b == 1 {
      assert p * b == p;
    } else {
      assert p * b == 0;
    }
    Bits.QuotientIs(n, 2 * p, h, p * b + r);
  }

  /** The bit the loop reads out of the limbs. */
  function BitAt(n: U128, s: nat): (b: nat)
    requires s < 128
  {
    Bits.And(if s >= 64 then Shr64(n.hi, s - 64) else Shr64(n.lo, s), 1)
  }

  lemma {:induction false} AndOne(w: nat)
    ensures Bits.And(w, 1) == w % 2
  {
    Bits.AndOdd(w, 0);
    AndZero(w / 2);
  }

  lemma {:induction false} AndZero(w: nat)
    ensures Bits.And(w, 0) == 0
  {
  }

  /** The lowest bit of a shifted number sits in the limb the loop looks at. */
  lemma {:induction false} ShrParity(n: U128, s: nat)
    requires s < 128
    ensures Value(Shr(n, s)) % 2 == (if s >= 64 then Shr64(n.hi, s - 64) else Shr64(n.lo, s)) % 2
  {
    hide Bits.Or, Shr64, Shl64;
    LoParity(Shr(n, s));
    if s == 0 {
      ShrNothing(n.lo);
    } else if s < 64 {
      OrParity(Shr64(n.lo, s), n.hi, 64 - s);
    }
  }

  lemma {:induction false} ShrNothing(x: u64)
    ensures Shr64(x, 0) == x
  {
    assert Bits.Pow2(0) == 1;
  }

  lemma {:induction false} LoParity(a: U128)
    ensures Value(a) % 2 == a.lo % 2
  {
  }

  lemma {:induction false} BitAtIs(n: U128, s: nat)
    requires s < 128
    ensures BitAt(n, s) == Value(n) / Bits.Pow2(s) % 2
  {
    ShrExact(n, s);
    ShrParity(n, s);
    AndOne(if s >= 64 then Shr64(n.hi, s - 64) else Shr64(n.lo, s));
    hide Shr, Shr64, Bits.And, Value, Bits.Pow2;
  }

  lemma {:induction false} OrParity(low: u64, high: u64, s: nat)
    requires 0 < s < 64
    ensures OrShifted(low, high, s) % 2 == low % 2
  {
    var x := Shl64(high, s);
    var p := Bits.Pow2(s - 1);
    assert Bits.Pow2(s) == 2 * p;
    assert high * Bits.Pow2(s) == 2 * (high * p);
    assert x % 2 == 0;
  }

  /** Or-ing a bit into an even number adds it. */
  lemma {:induction false} SetLowBit(r: U128, b: nat)
    requires b < 2 && r.lo % 2 == 0
    ensures Bits.Or(r.lo, b) == r.lo + b
  {
    assert Bits.Pow2(1) == 2;
    Bits.OrDisjoint(r.lo / 2, b, 1);
  }

  /** `rem << 1` with the next bit of the dividend or-ed in. */
  function TakeBit(rem: U128, b: nat): U128
    requires b < 2
  {
    var shifted := Shl(rem, 1);
    OrFits(shifted.lo, b);
    U128(Bits.Or(shifted.lo, b), shifted.hi)
  }

  lemma {:induction false} TwiceFits(x: int)
    requires 0 <= 2 * x < W128
    ensures x * 2 % W128 == 2 * x
  {
    Bits.QuotientIs(2 * x, W128, 0, 2 * x);
  }

  lemma {:induction false} DoubledValue(rem: U128)
    requires 2 * Value(rem) < W128
    ensures Value(Shl(rem, 1)) == 2 * Value(rem)
  {
    ShlExact(rem, 1);
    assert Bits.Pow2(1) == 2;
    TwiceFits(Value(rem));
    hide Shl, Value, Bits.Pow2;
  }

  lemma {:induction false} TwiceIsEven(a: U128, x: int)
    requires Value(a) == 2 * x
    ensures a.lo % 2 == 0
  {
    LoParity(a);
    hide Value;
    assert (2 * x) % 2 == 0;
  }

  lemma {:induction false} Doubled(rem: U128)
    requires 2 * Value(rem) < W128
    ensures Value(Shl(rem, 1)) == 2 * Value(rem) && Shl(rem, 1).lo % 2 == 0
  {
    hide Shl, Value;
    DoubledValue(rem);
    TwiceIsEven(Shl(rem, 1), Value(rem));
  }

  lemma {:induction false} TakeBitIs(rem: U128, b: nat)
    requires b < 2 && 2 * Value(rem) + b < W128
    ensures Value(TakeBit(rem, b)) == 2 * Value(rem) + b
  {
    Doubled(rem);
    SetLowBit(Shl(rem, 1), b);
    hide Shl, Bits.Or;
  }

  /** Setting bit `s` of the quotient, in whichever limb holds it. */
  function SetBit(q: U128, s: nat): U128
    requires s < 128
  {
    if s >= 64 then
      (OrFits(q.hi, Shl64(1, s - 64)); U128(q.lo, Bits.Or(q.hi, Shl64(1, s - 64))))
    else
      (OrFits(q.lo, Shl64(1, s)); U128(Bits.Or(q.lo, Shl64(1, s)), q.hi))
  }

  lemma {:induction false} OneShifted(t: nat)
    requires t < 64
    ensures Shl64(1, t) == Bits.Pow2(t)
  {
    Bits.Pow2Widths();
    Bits.Pow2Monotone(t + 1, 64);
    Bits.QuotientIs(Bits.Pow2(t), W64, 0, Bits.Pow2(t));
  }

  /** In a limb that is a multiple of `2^(t+1)`, setting bit `t` adds `2^t`. */
  lemma {:induction false} OrBit(x: nat, m: nat, t: nat)
    requires x == m * Bits.Pow2(t + 1)
    ensures Bits.Or(x, Bits.Pow2(t)) == x + Bits.Pow2(t)
  {
    Bits.OrDisjoint(m, Bits.Pow2(t), t + 1);
  }

  lemma {:induction false} SetBitIs(q: U128, s: nat, m: nat)
    requires s < 128 && Value(q) == m * Bits.Pow2(s + 1)
    ensures Value(SetBit(q, s)) == Value(q) + Bits.Pow2(s)
  {
    hide Bits.Pow2, Bits.Or;
    Bits.Pow2Widths();
    if s >= 64 {
      var t := s - 64;
      Bits.Pow2Add(64, t + 1);
      Bits.Pow2Add(64, t);
      OneShifted(t);
      HighMultiple(q, m, Bits.Pow2(t + 1));
      OrBit(q.hi, m, t);
    } else {
      Bits.Pow2Add(s + 1, 63 - s);
      OneShifted(s);
      var m' := LowMultiple(q, m, Bits.Pow2(s + 1), Bits.Pow2(63 - s));
      OrBit(q.lo, m', s);
    }
  }

  lemma {:induction false} HighMultiple(q: U128, m: nat, p: nat)
    requires Value(q) == m * (W64 * p)
    ensures q.lo == 0 && q.hi == m * p
  {
    assert m * (W64 * p) == W64 * (m * p);
    Bits.DivisionUnique(W64, q.hi, q.lo, m * p, 0);
  }

  lemma {:induction false} LowMultiple(q: U128, m: nat, p: nat, c: nat) returns (m': nat)
    requires p > 0 && p * c == W64 && Value(q) == m * p
    ensures q.lo == m' * p
  {
    var k := m - c * q.hi;
    assert (p * c) * q.hi == p * (c * q.hi);
    assert q.lo == p * k;
    if k < 0 {
      Bits.MulMonotone(p, k, -1);
    }
    m' := k;
  }

  /** So far the quotient has only bits from `k` up. */
  lemma {:induction false} QuotientMultiple(n: nat, d: nat, k: nat, rem: nat, quot: nat) returns (m: nat)
    requires n < W128 && k <= 128 && DividedSoFar(n, d, k, rem, quot)
    ensures quot == m * Bits.Pow2(k)
  {
    ShrRange(n, k);
    if d == 0 {
      m := OnesMultiple(k);
    } else {
      hide Bits.Pow2;
      DivisionInRange(n / Bits.Pow2(k), d);
      m := n / Bits.Pow2(k) / d;
    }
  }

  lemma {:induction false} OnesMultiple(k: nat) returns (m: nat)
    requires k <= 128
    ensures W128 - Bits.Pow2(k) == m * Bits.Pow2(k)
  {
    Bits.Pow2Widths();
    Bits.Pow2Add(128 - k, k);
    hide Bits.Pow2;
    m := Bits.Pow2(128 - k) - 1;
    LessOne(Bits.Pow2(128 - k), Bits.Pow2(k));
  }

  lemma {:induction false} LessOne(x: int, y: int)
    ensures (x - 1) * y == x * y - y
  {
  }

  /** One turn of the restoring division on numbers: doubling, taking the bit, and subtracting the
      divisor when it fits keep the partial remainder below the divisor, and no bit is lost. */
  lemma {:induction false} RestoringStep(n: nat, d: nat, s: nat, rem: nat, quot: nat, b: nat)
    requires n < W128 && DividedSoFar(n, d, s + 1, rem, quot)
    requires b == n / Bits.Pow2(s) % 2
    ensures 2 * rem + b <= n
    ensures var r := 2 * rem + b;
      if r >= d then DividedSoFar(n, d, s, r - d, quot + Bits.Pow2(s)) else DividedSoFar(n, d, s, r, quot)
  {
    var p, prefix := Bits.Pow2(s), n / Bits.Pow2(s + 1);
    assert Bits.Pow2(s + 1) == 2 * p;
    PrefixBit(n, s);
    ShrRange(n, s);
    ShrRange(n, s + 1);
    hide Bits.Pow2;
    if d > 0 {
      DivisionInRange(prefix, d);
      StepAlgebra(prefix, d, prefix / d, rem, b, p);
    }
  }

  lemma {:induction false} StepAlgebra(prefix: nat, d: nat, q: nat, rem: nat, b: nat, p: nat)
    requires d > 0 && prefix == d * q + rem && rem < d && b < 2
    ensures var r, next := 2 * rem + b, 2 * prefix + b;
      if r >= d then next / d == 2 * q + 1 && next % d == r - d && (2 * q + 1) * p == q * (2 * p) + p
      else next / d == 2 * q && next % d == r && (2 * q) * p == q * (2 * p)
  {
    var r, next := 2 * rem + b, 2 * prefix + b;
    assert next == d * (2 * q) + r by {
      assert 2 * (d * q) == d * (2 * q);
    }
    if r >= d {
      assert d * (2 * q + 1) == d * (2 * q) + d;
      Bits.QuotientIs(next, d, 2 * q + 1, r - d);
    } else {
      Bits.QuotientIs(next, d, 2 * q, r);
    }
  }

  /** `div_or_mod`: one bit-serial restoring division, for every divisor, the ones at or above 2^127
      and zero included. */
  method DivOrMod(n: U128, den: U128, wantRemainder: bool) returns (result: U128)
    ensures result == if wantRemainder then Remainder(n, den) else Quotient(n, den)
  {
    hide Shl, TakeBit, SetBit, BitAt, Value, Ge, Sub;
    var quot, rem := U128(0, 0), U128(0, 0);
    StartDivision(n, den);
    var bit := 127;
    while bit >= 0
      invariant -1 <= bit <= 127
      invariant DividedSoFar(Value(n), Value(den), bit + 1, Value(rem), Value(quot))
    {
      var s: nat := bit;
      var b := BitAt(n, s);
      BitAtIs(n, s);
      RestoringStep(Value(n), Value(den), s, Value(rem), Value(quot), b);
      ghost var m := QuotientMultiple(Value(n), Value(den), s + 1, Value(rem), Value(quot));
      TakeBitIs(rem, b);
      rem := TakeBit(rem, b);
      OrderIsValueOrder(rem, den);
      if Ge(rem, den) {
        SubtractFits(rem, den);
        rem := Sub(rem, den);
        SetBitIs(quot, s, m);
        quot := SetBit(quot, s);
      }
      bit := bit - 1;
    }
    DivisionEnds(n, den, rem, quot);
    result := if wantRemainder then rem else quot;
  }

  lemma {:induction false} SubtractFits(a: U128, b: U128)
    requires Value(a) >= Value(b)
    ensures Value(Sub(a, b)) == Value(a) - Value(b)
  {
    SubIsModular(a, b);
    hide Sub;
    Bits.QuotientIs(Value(a) - Value(b), W128, 0, Value(a) - Value(b));
  }

  lemma {:induction false} StartDivision(n: U128, den: U128)
    ensures DividedSoFar(Value(n), Value(den), 128, Value(U128(0, 0)), Value(U128(0, 0)))
  {
    Bits.Pow2Widths();
    Bits.QuotientIs(Value(n), W128, 0, Value(n));
    if Value(den) > 0 {
      Bits.QuotientIs(0, Value(den), 0, 0);
    }
  }

  lemma {:induction false} DivisionEnds(n: U128, den: U128, rem: U128, quot: U128)
    requires DividedSoFar(Value(n), Value(den), 0, Value(rem), Value(quot))
    ensures rem == Remainder(n, den) && quot == Quotient(n, den)
  {
    assert Bits.Pow2(0) == 1;
    hide Bits.Pow2;
    assert Value(n) / 1 == Value(n);
    if Value(den) > 0 {
      DivisionInRange(Value(n), Value(den));
      assert (Value(n) / Value(den)) * 1 == Value(n) / Value(den);
    }
    hide Value;
    ValueInjective(rem, Remainder(n, den));
    ValueInjective(quot, Quotient(n, den));
  }

  /** Quotient and remainder are the mathematical ones for every non-zero divisor. */
  lemma {:induction false} DivisionExact(n: U128, den: U128)
    requires Value(den) != 0
    ensures Value(n) == Value(Quotient(n, den)) * Value(den) + Value(Remainder(n, den))
    ensures Value(Remainder(n, den)) < Value(den)
  {
    DivisionInRange(Value(n), Value(den));
  }

  // ----- signed -----

  const HALF: int := 0x8000_0000_0000_0000_0000_0000_0000_0000

  /** Two's complement: the sign is the top bit of the high limb. */
  datatype I128 = I128(bits: U128)

  predicate IsNegative(a: I128) {
    Shr64(a.bits.hi, 63) != 0
  }

  function SignedValue(a: I128): int {
    if Value(a.bits) >= HALF then Value(a.bits) - W128 else Value(a.bits)
  }

  /** The 128-bit two's-complement value congruent to `x`: what wrapping leaves of it. */
  function Wrapped(x: int): (r: int)
    ensures -HALF <= r < HALF
  {
    if x % W128 >= HALF then x % W128 - W128 else x % W128
  }

  function Abs(x: int): nat {
    if x < 0 then -x else x
  }

  /** Division truncating toward zero, as C++ divides. */
  function Truncated(x: int, y: int): int
    requires y != 0
  {
    if (x < 0) == (y < 0) then Abs(x) / Abs(y) else -(Abs(x) / Abs(y))
  }

  function Negate(a: I128): I128 {
    I128(Add(Not(a.bits), OfU64(1)))
  }

  function Magnitude(a: I128): U128 {
    if IsNegative(a) then Negate(a).bits else a.bits
  }

  predicate SignedGe(a: I128, b: I128) {
    if IsNegative(a) != IsNegative(b) then IsNegative(b) else Ge(a.bits, b.bits)
  }

  function SignedAdd(a: I128, b: I128): I128 {
    I128(Add(a.bits, b.bits))
  }

  function SignedMul(a: I128, b: I128): I128 {
    var mag := I128(Product(Magnitude(a), Magnitude(b)));
    if IsNegative(a) != IsNegative(b) then Negate(mag) else mag
  }

  function SignedDiv(a: I128, b: I128): I128 {
    var q := I128(Quotient(Magnitude(a), Magnitude(b)));
    if IsNegative(a) != IsNegative(b) then Negate(q) else q
  }

  lemma {:induction false} SignBit(a: I128)
    ensures IsNegative(a) <==> SignedValue(a) < 0
    ensures -HALF <= SignedValue(a) < HALF
  {
    assert Bits.Pow2(63) == 0x8000_0000_0000_0000 by {
      Bits.Pow2Widths();
    }
    hide Bits.Pow2;
  }

  /** The bits of a signed number are its value modulo 2^128. */
  lemma {:induction false} SignedIsWrapped(a: I128)
    ensures SignedValue(a) == Wrapped(Value(a.bits))
    ensures Value(a.bits) == SignedValue(a) % W128
  {
    var v := Value(a.bits);
    Bits.QuotientIs(v, W128, 0, v);
    if v >= HALF {
      Bits.QuotientIs(v - W128, W128, -1, v);
    }
  }

  /** Congruent numbers wrap alike. */
  lemma {:induction false} WrappedCongruent(x: int, y: int)
    requires x % W128 == y % W128
    ensures Wrapped(x) == Wrapped(y)
  {
  }

  lemma {:induction false} WrappedInRange(x: int)
    requires -HALF <= x < HALF
    ensures Wrapped(x) == x
  {
    if x >= 0 {
      Bits.QuotientIs(x, W128, 0, x);
    } else {
      Bits.QuotientIs(x, W128, -1, x + W128);
    }
  }

  lemma {:induction false} ModReduced(x: int)
    ensures (x % W128) % W128 == x % W128
  {
    Bits.ModPlus(x, 0, W128);
  }

  lemma {:induction false} NegateBits(a: I128)
    ensures Value(Negate(a).bits) == (-Value(a.bits)) % W128
  {
    NotIsComplement(a.bits);
    AddIsModular(Not(a.bits), OfU64(1));
    hide Add, Not;
    Bits.ModMultiple(-Value(a.bits), 1, W128);
  }

  /** Negation wraps: only the most negative value is its own negative. */
  lemma {:induction false} NegateIsWrapped(a: I128)
    ensures SignedValue(Negate(a)) == Wrapped(-SignedValue(a))
  {
    NegateBits(a);
    SignedIsWrapped(Negate(a));
    hide Negate, Wrapped;
    var v := Value(a.bits);
    ModReduced(-v);
    WrappedCongruent((-v) % W128, -v);
    if v >= HALF {
      Bits.ModMultiple(-v, 1, W128);
      WrappedCongruent(-v, W128 - v);
    }
  }

  /** The magnitude is the absolute value, the most negative value's 2^127 included. */
  lemma {:induction false} MagnitudeIsAbs(a: I128)
    ensures Value(Magnitude(a)) == Abs(SignedValue(a))
  {
    SignBit(a);
    NegateBits(a);
    hide Negate, IsNegative;
    var v := Value(a.bits);
    if SignedValue(a) < 0 {
      Bits.QuotientIs(-v, W128, -1, W128 - v);
    }
  }

  lemma {:induction false} SignedOrder(a: I128, b: I128)
    ensures SignedGe(a, b) <==> SignedValue(a) >= SignedValue(b)
  {
    SignBit(a);
    SignBit(b);
    OrderIsValueOrder(a.bits, b.bits);
    hide IsNegative, Ge;
  }

  lemma {:induction false} SignedAddIsWrapped(a: I128, b: I128)
    ensures SignedValue(SignedAdd(a, b)) == Wrapped(SignedValue(a) + SignedValue(b))
  {
    AddIsModular(a.bits, b.bits);
    SignedIsWrapped(SignedAdd(a, b));
    hide Add, Wrapped;
    var x, y := Value(a.bits), Value(b.bits);
    ModReduced(x + y);
    var k := (if x >= HALF then -1 else 0) + (if y >= HALF then -1 else 0);
    Bits.ModMultiple(x + y, k, W128);
    assert SignedValue(a) + SignedValue(b) == x + y + W128 * k;
    WrappedCongruent((x + y) % W128, x + y + W128 * k);
  }

  /** Signs apart: a magnitude below 2^128, negated or not, wraps as the signed number it stands for. */
  lemma {:induction false} ApplySign(mag: I128, x: int, negative: bool)
    requires x >= 0
    requires Value(mag.bits) == x % W128
    ensures SignedValue(if negative then Negate(mag) else mag) == Wrapped(if negative then -x else x)
  {
    SignedIsWrapped(mag);
    ModReduced(x);
    WrappedCongruent(Value(mag.bits), x);
    if negative {
      NegateIsWrapped(mag);
      hide Negate, Wrapped;
      WrappedNegates(SignedValue(mag), x);
    }
  }

  lemma {:induction false} WrappedNegates(s: int, x: int)
    requires s == Wrapped(x)
    ensures Wrapped(-s) == Wrapped(-x)
  {
    var q := x / W128;
    assert x == W128 * q + x % W128;
    var k := if x % W128 >= HALF then q + 1 else q;
    assert s == x - W128 * k;
    Bits.ModMultiple(-x, k, W128);
    WrappedCongruent(-s, -x);
  }

  lemma {:induction false} AbsProduct(x: int, y: int)
    ensures Abs(x) * Abs(y) == if (x < 0) == (y < 0) then x * y else -(x * y)
  {
  }

  lemma {:induction false} ProductSign(x: int, y: int)
    ensures Wrapped(if (x < 0) != (y < 0) then -(Abs(x) * Abs(y)) else Abs(x) * Abs(y)) == Wrapped(x * y)
  {
    AbsProduct(x, y);
  }

  /** Signed multiplication is the product, wrapped. */
  lemma {:induction false} SignedMulIsWrapped(a: I128, b: I128)
    ensures SignedValue(SignedMul(a, b)) == Wrapped(SignedValue(a) * SignedValue(b))
  {
    SignBit(a);
    SignBit(b);
    MagnitudeIsAbs(a);
    MagnitudeIsAbs(b);
    hide Magnitude, Negate, IsNegative, SignedValue, Wrapped, Value, Abs;
    var x, y := SignedValue(a), SignedValue(b);
    ApplySign(I128(Product(Magnitude(a), Magnitude(b))), Abs(x) * Abs(y), (x < 0) != (y < 0));
    ProductSign(x, y);
  }

  /** Signed division truncates toward zero. */
  lemma {:induction false} SignedDivIsWrapped(a: I128, b: I128)
    requires SignedValue(b) != 0
    ensures SignedValue(SignedDiv(a, b)) == Wrapped(Truncated(SignedValue(a), SignedValue(b)))
  {
    SignBit(a);
    SignBit(b);
    MagnitudeIsAbs(a);
    MagnitudeIsAbs(b);
    var x, y := SignedValue(a), SignedValue(b);
    assert Abs(y) > 0 && Abs(x) < W128;
    hide Magnitude, Negate, IsNegative, SignedValue, Wrapped, Value, Abs;
    var q := Abs(x) / Abs(y);
    DivisionInRange(Abs(x), Abs(y));
    Bits.QuotientIs(q, W128, 0, q);
    ApplySign(I128(Quotient(Magnitude(a), Magnitude(b))), q, (x < 0) != (y < 0));
  }

  /** A truncated quotient of two signed values is at most the dividend in magnitude, and reaches 2^127
      on the positive side only for the most negative value over minus one. */
  lemma {:induction false} TruncatedRange(x: int, y: int)
    requires -HALF <= x < HALF && y != 0 && !(x == -HALF && y == -1)
    ensures -HALF <= Truncated(x, y) < HALF
  {
    var d, q, r := Abs(y), Abs(x) / Abs(y), Abs(x) % Abs(y);
    assert Abs(x) == d * q + r;
    QuotientShrinks(Abs(x), d, q, r);
    if x < 0 && y < -1 {
      Bits.MulMonotone(q, 2, d);
    }
  }

  lemma {:induction false} QuotientShrinks(x: int, d: int, q: int, r: int)
    requires d >= 1 && 0 <= r < d && x >= 0 && x == d * q + r
    ensures 0 <= q <= x
  {
    if q < 0 {
      Bits.MulMonotone(d, q, -1);
    } else {
      Bits.MulMonotone(q, 1, d);
    }
  }

  /** The quotient is exact except for the most negative value divided by minus one, which wraps. */
  lemma {:induction false} SignedDivExactUnlessMin(a: I128, b: I128)
    requires SignedValue(b) != 0
    ensures SignedValue(SignedDiv(a, b)) == Truncated(SignedValue(a), SignedValue(b)) <==>
            !(SignedValue(a) == -HALF && SignedValue(b) == -1)
    ensures SignedValue(a) == -HALF && SignedValue(b) == -1 ==> SignedValue(SignedDiv(a, b)) == -HALF
  {
    SignedDivIsWrapped(a, b);
    SignBit(a);
    hide SignedDiv;
    var x, y := SignedValue(a), SignedValue(b);
    hide SignedValue;
    if x == -HALF && y == -1 {
      MinOverMinusOne();
    } else {
      TruncatedRange(x, y);
      hide Truncated;
      WrappedInRange(Truncated(x, y));
    }
  }

  lemma {:induction false} MinOverMinusOne()
    ensures Truncated(-HALF, -1) == HALF && Wrapped(HALF) == -HALF
  {
    assert HALF / 1 == HALF;
    Bits.QuotientIs(HALF, W128, 0, HALF);
  }
}
