/**
 The decimal text of a 128-bit integer (proof/det_proof.cpp): digits are pushed lowest first while the
 magnitude is divided by ten, then the string is reversed. The output is the one canonical decimal
 numeral of the value, for all 2^128 values.
 */
module Decimal {
  import Bits
  import opened Text
  import opened Int128

  /** The number a digit string denotes, most significant digit first. */
  function Natural(s: string): nat
    requires AllDigits(s)
  {
    if s == [] then 0 else 10 * Natural(s[..|s| - 1]) + DigitOf(s[|s| - 1])
  }

  predicate NoLeadingZero(s: string) {
    AllDigits(s) && (s != [] ==> s[0] != '0')
  }

  /** The canonical decimal numerals: `0`, or an optional minus and digits that do not start with 0. */
  predicate Canonical(s: string) {
    s == "0" || (s != [] && NoLeadingZero(s)) || (|s| > 1 && s[0] == '-' && NoLeadingZero(s[1..]))
  }

  function NumeralValue(s: string): int
    requires Canonical(s)
  {
    if s[0] == '-' then 0 - Natural(s[1..]) else Natural(s)
  }

  lemma {:induction false} PositiveNatural(s: string)
    requires NoLeadingZero(s) && s != []
    ensures Natural(s) > 0
  {
    if |s| > 1 {
      PositiveNatural(s[..|s| - 1]);
    }
  }

  lemma {:induction false} NaturalInjective(s: string, t: string)
    requires NoLeadingZero(s) && NoLeadingZero(t) && Natural(s) == Natural(t)
    ensures s == t
    decreases |s|
  {
    if s == [] || t == [] {
      if s != [] {
        PositiveNatural(s);
      }
      if t != [] {
        PositiveNatural(t);
      }
    } else {
      var s', t' := s[..|s| - 1], t[..|t| - 1];
      Bits.DivisionUnique(10, Natural(s'), DigitOf(s[|s| - 1]), Natural(t'), DigitOf(t[|t| - 1]));
      NaturalInjective(s', t');
      assert s == s' + [s[|s| - 1]] && t == t' + [t[|t| - 1]];
    }
  }

  /** A value has one canonical numeral. */
  lemma {:induction false} CanonicalIsUnique(s: string, t: string)
    requires Canonical(s) && Canonical(t) && NumeralValue(s) == NumeralValue(t)
    ensures s == t
  {
    CanonicalSign(s);
    CanonicalSign(t);
    if s[0] == '-' {
      NaturalInjective(s[1..], t[1..]);
      assert s == [s[0]] + s[1..] && t == [t[0]] + t[1..];
    } else if s != "0" && t != "0" {
      NaturalInjective(s, t);
    }
  }

  lemma {:induction false} CanonicalSign(s: string)
    requires Canonical(s)
    ensures s[0] == '-' <==> NumeralValue(s) < 0
    ensures s == "0" <==> NumeralValue(s) == 0
  {
    if s == "0" {
      assert s[..0] == [];
      assert Natural(s) == 10 * Natural([]) + DigitOf('0');
    } else if s[0] == '-' {
      PositiveNatural(s[1..]);
    } else {
      PositiveNatural(s);
    }
  }

  // ----- the loop's own order, lowest digit first -----

  function Pow10(n: nat): (p: nat)
    ensures p > 0
  {
    if n == 0 then 1 else 10 * Pow10(n - 1)
  }

  function Little(s: string): nat
    requires AllDigits(s)
  {
    if s == [] then 0 else DigitOf(s[0]) + 10 * Little(s[1..])
  }

  function Reversed(s: string): (r: string)
    ensures |r| == |s|
    ensures AllDigits(s) ==> AllDigits(r)
  {
    if s == [] then [] else Reversed(s[1..]) + [s[0]]
  }

  lemma {:induction false} LittleSnoc(s: string, c: char)
    requires AllDigits(s) && Digit(c)
    ensures AllDigits(s + [c]) && Little(s + [c]) == Little(s) + Pow10(|s|) * DigitOf(c)
  {
    if s == [] {
      assert s + [c] == [c];
      assert Little([c]) == DigitOf(c) + 10 * Little([]);
    } else {
      assert (s + [c])[1..] == s[1..] + [c];
      LittleSnoc(s[1..], c);
      assert Pow10(|s|) == 10 * Pow10(|s| - 1);
      hide Pow10, Little;
      TenTimes(Pow10(|s| - 1), DigitOf(c));
    }
  }

  lemma {:induction false} TenTimes(p: int, d: int)
    ensures (10 * p) * d == 10 * (p * d)
  {
  }

  lemma {:induction false} ReversedNatural(s: string)
    requires AllDigits(s)
    ensures Natural(Reversed(s)) == Little(s)
  {
    if s != [] {
      ReversedNatural(s[1..]);
      var r := Reversed(s[1..]);
      assert (r + [s[0]])[..|r|] == r;
    }
  }

  lemma {:induction false} ReversedFirst(s: string)
    requires s != []
    ensures Reversed(s)[0] == s[|s| - 1]
  {
    if |s| > 1 {
      ReversedFirst(s[1..]);
    }
  }

  lemma {:induction false} ReversedSnoc(s: string, c: char)
    ensures Reversed(s + [c]) == [c] + Reversed(s)
  {
    if s == [] {
      assert s + [c] == [c];
      assert Reversed([c]) == Reversed([]) + [c];
    } else {
      assert (s + [c])[1..] == s[1..] + [c];
      ReversedSnoc(s[1..], c);
    }
  }

  /** What the digits pushed so far say about the magnitude. */
  ghost predicate Pushed(out: string, rest: nat, magnitude: nat) {
    AllDigits(out) && Little(out) + Pow10(|out|) * rest == magnitude &&
    (rest == 0 && out != [] ==> out[|out| - 1] != '0')
  }

  lemma {:induction false} PushDigit(out: string, rest: nat, magnitude: nat, d: nat, next: nat)
    requires Pushed(out, rest, magnitude) && rest == 10 * next + d && d < 10 && rest != 0
    ensures Pushed(out + [DigitChar(d)], next, magnitude)
  {
    var c := DigitChar(d);
    assert DigitOf(c) == d;
    LittleSnoc(out, c);
    assert Pow10(|out| + 1) == 10 * Pow10(|out|);
    SplitWeight(Pow10(|out|), next, d);
  }

  lemma {:induction false} SplitWeight(p: int, next: int, d: int)
    ensures p * (10 * next + d) == p * d + (10 * p) * next
  {
  }

  lemma {:induction false} FinishNumeral(out: string, magnitude: nat, negative: bool)
    requires Pushed(out, 0, magnitude) && (negative ==> magnitude > 0)
    ensures var digits := if out == [] then "0" else out;
      var text := Reversed(if negative then digits + ['-'] else digits);
      Canonical(text) && NumeralValue(text) == if negative then 0 - magnitude else magnitude
  {
    var digits := if out == [] then "0" else out;
    if out == [] {
      assert digits[1..] == [];
      assert Little(digits) == DigitOf('0') + 10 * Little([]);
    }
    ReversedNatural(digits);
    ReversedFirst(digits);
    if negative {
      ReversedSnoc(digits, '-');
      assert (['-'] + Reversed(digits))[1..] == Reversed(digits);
    } else if out == [] {
      assert Reversed(digits) == ['0'];
    }
  }

  /** `magnitude` as the loop takes it: negation is done on the unsigned bits. */
  function UnsignedMagnitude(value: I128): U128 {
    if !SignedGe(value, I128(U128(0, 0))) then Sub(U128(0, 0), value.bits) else value.bits
  }

  lemma {:induction false} UnsignedMagnitudeIsAbs(value: I128)
    ensures SignedGe(value, I128(U128(0, 0))) <==> SignedValue(value) >= 0
    ensures Value(UnsignedMagnitude(value)) == Abs(SignedValue(value))
  {
    SignedOrder(value, I128(U128(0, 0)));
    hide SignedGe;
    if SignedValue(value) < 0 {
      SubIsModular(U128(0, 0), value.bits);
      hide Sub;
      Bits.QuotientIs(-Value(value.bits), W128, -1, W128 - Value(value.bits));
    }
  }

  lemma {:induction false} TenthOf(rest: U128)
    ensures Value(rest) == 10 * Value(Quotient(rest, U128(10, 0))) + Value(Remainder(rest, U128(10, 0)))
    ensures Value(Remainder(rest, U128(10, 0))) == Remainder(rest, U128(10, 0)).lo < 10
    ensures Value(rest) != 0 ==> Value(Quotient(rest, U128(10, 0))) < Value(rest)
  {
    assert Value(U128(10, 0)) == 10;
    DivisionExact(rest, U128(10, 0));
  }

  /** `i128_to_dec`: the canonical numeral of every 128-bit value, the most negative included. */
  method ToDecimal(value: I128) returns (text: string)
    ensures Canonical(text) && NumeralValue(text) == SignedValue(value)
  {
    var negative := !SignedGe(value, I128(U128(0, 0)));
    var rest := UnsignedMagnitude(value);
    UnsignedMagnitudeIsAbs(value);
    ghost var magnitude := Value(rest);
    var out: string := [];
    hide UnsignedMagnitude, SignedGe, Quotient, Remainder;
    while rest != U128(0, 0)
      invariant Pushed(out, Value(rest), magnitude)
      decreases Value(rest)
    {
      var digit := DivOrMod(rest, U128(10, 0), true);
      var next := DivOrMod(rest, U128(10, 0), false);
      TenthOf(rest);
      PushDigit(out, Value(rest), magnitude, digit.lo, Value(next));
      out := out + [DigitChar(digit.lo)];
      rest := next;
    }
    FinishNumeral(out, magnitude, negative);
    if out == [] {
      out := out + ['0'];
    }
    if negative {
      out := out + ['-'];
    }
    text := Reversed(out);
  }
}
