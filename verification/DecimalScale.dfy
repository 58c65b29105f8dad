/**
 The fixed-point reading of a decimal token (parse_decimal_scaled in core/api/canon.api.cppm), which JSON
 ordinals go through: digits and a fraction times a power of ten, in 64-bit integers with every overflow
 refused. The result is the exact product truncated toward zero, present exactly when it fits.
 */
module DecimalScale {
  import Bits
  import opened Wrappers
  import opened Text
  import opened Decimal

  const INT64_MAX: int := 0x7FFF_FFFF_FFFF_FFFF

  predicate TrimChar(c: char) {
    c in " \t\r\n,}]"
  }

  function TrimEnd(s: string): string {
    if s != "" && TrimChar(s[|s| - 1]) then TrimEnd(s[..|s| - 1]) else s
  }

  function TrimStart(s: string): string {
    if s != "" && TrimChar(s[0]) then TrimStart(s[1..]) else s
  }

  /** The fraction digits' weight: each digit counts a tenth of the one before, down to one. */
  function FractionOf(digits: string, weight: nat): nat
    requires AllDigits(digits)
  {
    if digits == "" || weight == 0 then 0 else DigitOf(digits[0]) * weight + FractionOf(digits[1..], weight / 10)
  }

  function DotAt(s: string, at: nat): bool {
    at < |s| && s[at] == '.'
  }

  /** Where the fraction digits end: at `i` itself when no dot stands there. */
  function FractionEnd(s: string, i: nat): (j: nat)
    requires i <= |s|
    ensures i <= j <= |s|
    ensures DotAt(s, i) ==> i < j && AllDigits(s[i + 1..(j)])
  {
    if DotAt(s, i) then DigitsEnd(s, i + 1) else i
  }

  /** The exact scaled value of a trimmed token, absent when it is not a plain decimal. */
  function ScaledValue(s: string, scale: nat): Option<nat> {
    var i := DigitsEnd(s, 0);
    var j := FractionEnd(s, i);
    if j != |s| || (i == 0 && j <= i + 1) then None
    else Some(Natural(s[0..i]) * scale + (if DotAt(s, i) then FractionOf(s[i + 1..j], scale / 10) else 0))
  }

  function DecimalScaled(text: string, scale: nat): Option<int> {
    var value := ScaledValue(TrimEnd(TrimStart(text)), scale);
    if value.Some? && value.value <= INT64_MAX then Some(value.value) else None
  }

  // ----- what the fraction is worth -----

  lemma {:induction false} NaturalCons(digits: string)
    requires AllDigits(digits) && digits != ""
    ensures Natural(digits) == DigitOf(digits[0]) * Pow10(|digits| - 1) + Natural(digits[1..])
  {
    hide Natural, Pow10, AllDigits;
    var n := |digits|;
    NaturalLast(digits);
    if n == 1 {
      OneDigit(digits);
    } else {
      var init, last := digits[..n - 1], DigitOf(digits[n - 1]);
      SubDigits(digits);
      NaturalCons(init);
      NaturalLast(digits[1..]);
      assert init[1..] == digits[1..][..n - 2] && init[0] == digits[0];
      PowStep(n - 2);
      TenTimes(Pow10(n - 2), DigitOf(digits[0]));
    }
  }

  lemma {:induction false} OneDigit(digits: string)
    requires AllDigits(digits) && |digits| == 1
    ensures AllDigits(digits[1..]) && Natural(digits[..0]) == 0 && Natural(digits[1..]) == 0 && Pow10(0) == 1
    ensures Digit(digits[0])
  {
  }

  lemma {:induction false} SubDigits(digits: string)
    requires AllDigits(digits) && |digits| > 1
    ensures AllDigits(digits[..|digits| - 1]) && AllDigits(digits[1..]) && Digit(digits[0]) && Digit(digits[|digits| - 1])
  {
  }

  lemma {:induction false} NaturalLast(s: string)
    requires AllDigits(s) && s != ""
    ensures AllDigits(s[..|s| - 1]) && Digit(s[|s| - 1])
    ensures Natural(s) == 10 * Natural(s[..|s| - 1]) + DigitOf(s[|s| - 1])
  {
  }

  lemma {:induction false} PowStep(n: nat)
    ensures Pow10(n + 1) == 10 * Pow10(n) && Pow10(n + 1) / 10 == Pow10(n)
  {
  }

  lemma {:induction false} NaturalBound(digits: string)
    requires AllDigits(digits)
    ensures Natural(digits) < Pow10(|digits|)
  {
    if digits != "" {
      NaturalBound(digits[..|digits| - 1]);
      PowStep(|digits| - 1);
    }
  }

  /** The fraction is the decimal fraction times the scale, truncated. */
  lemma {:induction false} FractionTruncates(digits: string, n: nat)
    requires AllDigits(digits)
    ensures var f := FractionOf(digits, Pow10(n) / 10);
      f * Pow10(|digits|) <= Natural(digits) * Pow10(n) < (f + 1) * Pow10(|digits|)
    decreases |digits|
  {
    if digits == "" {
      assert Pow10(0) == 1;
    } else if n == 0 {
      assert Pow10(0) == 1 && Pow10(0) / 10 == 0;
      NaturalBound(digits);
    } else {
      PowStep(n - 1);
      PowStep(|digits| - 1);
      FractionTruncates(digits[1..], n - 1);
      NaturalCons(digits);
      assert FractionOf(digits, Pow10(n - 1)) == DigitOf(digits[0]) * Pow10(n - 1) + FractionOf(digits[1..], Pow10(n - 1) / 10) by {
        assert Pow10(n - 1) > 0;
      }
      hide FractionOf, Natural, Pow10;
      TruncationStep(DigitOf(digits[0]), Pow10(n - 1), Pow10(|digits| - 1), Natural(digits[1..]), FractionOf(digits[1..], Pow10(n - 1) / 10));
    }
  }

  lemma {:induction false} TruncationStep(d: int, p: int, q: int, rest: int, f: int)
    requires f * q <= rest * p < (f + 1) * q
    ensures (d * p + f) * (10 * q) <= (d * q + rest) * (10 * p) < (d * p + f + 1) * (10 * q)
  {
    assert (d * p + f) * (10 * q) == 10 * (d * p * q) + 10 * (f * q);
    assert (d * q + rest) * (10 * p) == 10 * (d * p * q) + 10 * (rest * p);
    assert (d * p + f + 1) * (10 * q) == 10 * (d * p * q) + 10 * ((f + 1) * q);
  }

  /** A scaled value is the decimal times the scale, truncated toward zero. */
  lemma {:induction false} ScaledTruncates(s: string, n: nat)
    requires ScaledValue(s, Pow10(n)).Some?
    ensures var i := DigitsEnd(s, 0); var digits := if DotAt(s, i) then s[i + 1..] else "";
      AllDigits(s[0..i]) && AllDigits(digits) &&
      var value, exact := ScaledValue(s, Pow10(n)).value, (Natural(s[0..i]) * Pow10(|digits|) + Natural(digits)) * Pow10(n);
      value * Pow10(|digits|) <= exact < (value + 1) * Pow10(|digits|)
  {
    var i := DigitsEnd(s, 0);
    var j := FractionEnd(s, i);
    var digits := if DotAt(s, i) then s[i + 1..] else "";
    assert DotAt(s, i) ==> s[i + 1..j] == digits;
    FractionTruncates(digits, n);
    WholeAndFraction(Natural(s[0..i]), Pow10(|digits|), Natural(digits), Pow10(n), FractionOf(digits, Pow10(n) / 10));
  }

  lemma {:induction false} WholeAndFraction(whole: int, q: int, rest: int, p: int, f: int)
    requires f * q <= rest * p < (f + 1) * q
    ensures (whole * p + f) * q <= (whole * q + rest) * p < (whole * p + f + 1) * q
  {
    assert (whole * p + f) * q == whole * p * q + f * q;
    assert (whole * q + rest) * p == whole * p * q + rest * p;
    assert (whole * p + f + 1) * q == whole * p * q + (f + 1) * q;
  }

  // ----- the loops -----

  lemma {:induction false} PrefixSmaller(s: string, k: nat, i: nat)
    requires k <= i <= |s| && AllDigits(s[0..i])
    ensures AllDigits(s[0..k]) && Natural(s[0..k]) <= Natural(s[0..i])
    decreases i
  {
    if k < i {
      assert s[0..i][..i - 1] == s[0..i - 1];
      NaturalLast(s[0..i]);
      PrefixSmaller(s, k, i - 1);
    } else {
      assert s[0..k] == s[0..i];
    }
  }

  lemma {:induction false} DigitPrefix(s: string, k: nat)
    requires k < DigitsEnd(s, 0)
    ensures AllDigits(s[0..k]) && Digit(s[k]) && AllDigits(s[0..k + 1])
    ensures Natural(s[0..k + 1]) == 10 * Natural(s[0..k]) + DigitOf(s[k])
    ensures Natural(s[0..k + 1]) <= Natural(s[0..DigitsEnd(s, 0)])
  {
    var i := DigitsEnd(s, 0);
    PrefixSmaller(s, k + 1, i);
    PrefixSmaller(s, k, i);
    assert s[0..i][k] == s[k];
    assert s[0..k + 1][..k] == s[0..k];
    NaturalLast(s[0..k + 1]);
  }

  /** The integer loop: absent when the number leaves 64 bits. */
  method IntegerPart(s: string) returns (value: Option<int>)
    ensures value == if Natural(s[0..DigitsEnd(s, 0)]) <= INT64_MAX then Some(Natural(s[0..DigitsEnd(s, 0)])) else None
  {
    hide Natural, DigitsEnd;
    var end := SkipDigits(s, 0);
    var v := 0;
    EmptyNatural(s);
    for idx := 0 to end
      invariant AllDigits(s[0..idx]) && v == Natural(s[0..idx]) && v <= INT64_MAX
    {
      DigitPrefix(s, idx);
      var digit := DigitOf(s[idx]);
      if v > (INT64_MAX - digit) / 10 {
        return None;
      }
      v := v * 10 + digit;
    }
    return Some(v);
  }

  lemma {:induction false} EmptyNatural(s: string)
    ensures s[0..0] == "" && AllDigits("") && Natural("") == 0
  {
  }

  /** The fraction loop. */
  method AddFraction(start: int, digits: string, weight: nat) returns (value: Option<int>)
    requires AllDigits(digits) && 0 <= start <= INT64_MAX
    ensures var total := start + FractionOf(digits, weight);
      value == if total <= INT64_MAX then Some(total) else None
  {
    hide FractionOf, Times;
    var v, w := start, weight;
    var k := 0;
    assert digits[0..] == digits;
    while k < |digits|
      invariant 0 <= k <= |digits| && start <= v <= INT64_MAX
      invariant v + FractionOf(digits[k..], w) == start + FractionOf(digits, weight)
    {
      FractionStep(digits, k, w);
      if w != 0 {
        var contribution := Times(DigitOf(digits[k]), w);
        if v > INT64_MAX - contribution {
          return None;
        }
        v := v + contribution;
        w := w / 10;
      }
      k := k + 1;
    }
    FractionEnds(digits, w);
    return Some(v);
  }

  function Times(digit: nat, weight: nat): (r: nat) {
    digit * weight
  }

  lemma {:induction false} FractionStep(digits: string, k: nat, weight: nat)
    requires AllDigits(digits) && k < |digits|
    ensures Digit(digits[k]) && AllDigits(digits[k..]) && AllDigits(digits[k + 1..])
    ensures weight == 0 ==> FractionOf(digits[k..], weight) == 0 && FractionOf(digits[k + 1..], weight) == 0
    ensures weight != 0 ==> FractionOf(digits[k..], weight) == Times(DigitOf(digits[k]), weight) + FractionOf(digits[k + 1..], weight / 10)
  {
    assert digits[k..][1..] == digits[k + 1..] && digits[k..][0] == digits[k];
  }

  lemma {:induction false} FractionEnds(digits: string, weight: nat)
    ensures digits[|digits|..] == "" && FractionOf("", weight) == 0
  {
  }

  /** `parse_decimal_scaled`, for a positive scale. */
  method ParseDecimalScaled(text: string, scale: nat) returns (value: Option<int>)
    requires scale > 0
    ensures value == DecimalScaled(text, scale)
  {
    hide TrimEnd, TrimStart, FractionOf, Natural, DigitsEnd;
    var s := TrimEnd(TrimStart(text));
    if s == "" {
      EmptyToken(scale);
      return None;
    }
    var i := SkipDigits(s, 0);
    var whole := IntegerPart(s);
    if whole.None? {
      TooLarge(Natural(s[0..i]), scale);
      return None;
    }
    if whole.value > INT64_MAX / scale {
      OverQuotient(whole.value, scale);
      return None;
    }
    OverQuotient(whole.value, scale);
    var v := whole.value * scale;
    var j := i;
    if i < |s| && s[i] == '.' {
      j := SkipDigits(s, i + 1);
      var total := AddFraction(v, s[i + 1..j], scale / 10);
      if total.None? {
        return None;
      }
      v := total.value;
    }
    if j != |s| || (i == 0 && j <= i + 1) {
      return None;
    }
    return Some(v);
  }

  lemma {:induction false} EmptyToken(scale: nat)
    ensures ScaledValue("", scale) == None
  {
  }

  lemma {:induction false} TooLarge(x: int, scale: int)
    requires x > INT64_MAX && scale > 0
    ensures x * scale > INT64_MAX
  {
    Bits.MulMonotone(x, 1, scale);
  }

  lemma {:induction false} OverQuotient(x: int, scale: int)
    requires x >= 0 && scale > 0
    ensures x > INT64_MAX / scale <==> x * scale > INT64_MAX
    ensures x * scale >= 0
  {
    var q, r := INT64_MAX / scale, INT64_MAX % scale;
    assert INT64_MAX == scale * q + r;
    if x > q {
      Bits.MulMonotone(scale, q + 1, x);
      assert scale * (q + 1) == scale * q + scale;
    } else {
      Bits.MulMonotone(scale, x, q);
    }
    Bits.MulMonotone(scale, 0, x);
  }

  // ----- which texts are read, and as what -----

  /** The bytes trimmed from both ends: space, tab, line feed, carriage return, comma and the two closing brackets. */
  predicate Trimmable(c: char) {
    c as int in [32, 9, 10, 13, 44, 125, 93]
  }

  predicate AllTrimmable(s: string) {
    forall i :: 0 <= i < |s| ==> Trimmable(s[i])
  }

  /** Digits, then perhaps a dot and digits, a digit somewhere. */
  predicate PlainDecimal(core: string, whole: string, dotted: bool, fraction: string) {
    core == whole + (if dotted then "." + fraction else "") && AllDigits(whole) && AllDigits(fraction) &&
    (dotted || fraction == "") && (whole != "" || fraction != "")
  }

  predicate Bare(core: string) {
    core == "" || (!Trimmable(core[0]) && !Trimmable(core[|core| - 1]))
  }

  lemma {:induction false} TrimCharIs()
    ensures forall c :: TrimChar(c) <==> Trimmable(c)
  {
  }

  lemma {:induction false} TrimStartIs(before: string, rest: string)
    requires AllTrimmable(before) && (rest == "" || !Trimmable(rest[0]))
    ensures TrimStart(before + rest) == rest
  {
    hide TrimChar, Trimmable;
    TrimCharIs();
    if before == "" {
      assert before + rest == rest;
    } else {
      var t := before + rest;
      assert t[1..] == before[1..] + rest && t[0] == before[0];
      TrimStartIs(before[1..], rest);
    }
  }

  lemma {:induction false} TrimEndIs(rest: string, after: string)
    requires AllTrimmable(after) && (rest == "" || !Trimmable(rest[|rest| - 1]))
    ensures TrimEnd(rest + after) == rest
  {
    hide TrimChar, Trimmable;
    TrimCharIs();
    if after == "" {
      assert rest + after == rest;
    } else {
      var n, t := |after| - 1, rest + after;
      assert t[..|t| - 1] == rest + after[..n] && t[|t| - 1] == after[n];
      TrimEndIs(rest, after[..n]);
    }
  }

  lemma {:induction false} TrimmedCore(before: string, core: string, after: string)
    requires AllTrimmable(before) && AllTrimmable(after) && Bare(core) && core != ""
    ensures TrimEnd(TrimStart(before + (core + after))) == core
  {
    TrimStartIs(before, core + after);
    TrimEndIs(core, after);
  }

  lemma {:induction false} DecimalEnds(core: string, whole: string, dotted: bool, fraction: string)
    requires PlainDecimal(core, whole, dotted, fraction)
    ensures DigitsEnd(core, 0) == |whole| && core[0..|whole|] == whole && (DotAt(core, |whole|) <==> dotted)
    ensures FractionEnd(core, |whole|) == |core| && (dotted ==> core[|whole| + 1..] == fraction && core[|whole| + 1..|core|] == fraction)
    ensures core != "" && Bare(core) && (whole == "" ==> |core| > 1)
  {
    hide AllDigits;
    DecimalBytes(core, whole, dotted, fraction);
    assert core[0..|whole|] == whole;
    DigitsEndExact(core, 0, |whole|);
    if dotted {
      assert core[|whole| + 1..|core|] == fraction;
      DigitsEndExact(core, |whole| + 1, |core|);
    }
  }

  lemma {:induction false} DecimalBytes(core: string, whole: string, dotted: bool, fraction: string)
    requires PlainDecimal(core, whole, dotted, fraction)
    ensures core != "" && Bare(core) && (|whole| < |core| ==> core[|whole|] == '.' && dotted) && (dotted ==> |whole| < |core|)
  {
  }

  /** What a plain decimal is worth at ten to the `n`, cut to a whole number. */
  function CutValue(whole: string, fraction: string, n: nat): int
    requires AllDigits(whole) && AllDigits(fraction)
  {
    (Natural(whole) * Pow10(|fraction|) + Natural(fraction)) * Pow10(n) / Pow10(|fraction|)
  }

  lemma {:induction false} CutIs(exact: int, value: int, unit: int)
    requires unit > 0 && value * unit <= exact < (value + 1) * unit
    ensures exact / unit == value
  {
    assert (value + 1) * unit == value * unit + unit && unit * value == value * unit;
    Bits.QuotientIs(exact, unit, value, exact - value * unit);
  }

  lemma {:induction false} ScaledIsCut(core: string, whole: string, dotted: bool, fraction: string, n: nat)
    requires PlainDecimal(core, whole, dotted, fraction)
    ensures ScaledValue(core, Pow10(n)) == Some(CutValue(whole, fraction, n))
  {
    hide Natural, Pow10, FractionOf, DigitsEnd, AllDigits;
    DecimalEnds(core, whole, dotted, fraction);
    ScaledTruncates(core, n);
    var value := ScaledValue(core, Pow10(n)).value;
    CutIs((Natural(whole) * Pow10(|fraction|) + Natural(fraction)) * Pow10(n), value, Pow10(|fraction|));
  }

  ghost predicate ReadAs(text: string, before: string, core: string, after: string, whole: string, dotted: bool, fraction: string) {
    text == before + (core + after) && AllTrimmable(before) && AllTrimmable(after) && PlainDecimal(core, whole, dotted, fraction)
  }

  /** A text is read if and only if it is a plain decimal between trimmed bytes whose value fits 64 bits, and then as
      that value times the scale, cut to a whole number. */
  lemma {:induction false} DecimalExactly(text: string, n: nat)
    ensures forall before, core, after, whole, dotted, fraction :: ReadAs(text, before, core, after, whole, dotted, fraction) ==>
              AllDigits(whole) && AllDigits(fraction) &&
              DecimalScaled(text, Pow10(n)) ==
              if CutValue(whole, fraction, n) < 0x8000_0000_0000_0000 then Some(CutValue(whole, fraction, n)) else None
    ensures DecimalScaled(text, Pow10(n)).Some? ==>
              exists before, core, after, whole, dotted, fraction :: ReadAs(text, before, core, after, whole, dotted, fraction)
  {
    hide ScaledValue, CutValue, TrimEnd, TrimStart, PlainDecimal, Bare, AllTrimmable, Pow10;
    forall before, core, after, whole, dotted, fraction | ReadAs(text, before, core, after, whole, dotted, fraction)
      ensures AllDigits(whole) && AllDigits(fraction) &&
              DecimalScaled(text, Pow10(n)) ==
              if CutValue(whole, fraction, n) < 0x8000_0000_0000_0000 then Some(CutValue(whole, fraction, n)) else None
    {
      DecimalEnds(core, whole, dotted, fraction);
      PlainDigits(core, whole, dotted, fraction);
      TrimmedCore(before, core, after);
      ScaledIsCut(core, whole, dotted, fraction, n);
    }
    if DecimalScaled(text, Pow10(n)).Some? {
      var before, after := TrimmedParts(text);
      var whole, dotted, fraction := ValueParts(TrimEnd(TrimStart(text)), Pow10(n));
      assert ReadAs(text, before, TrimEnd(TrimStart(text)), after, whole, dotted, fraction);
    }
  }

  lemma {:induction false} PlainDigits(core: string, whole: string, dotted: bool, fraction: string)
    requires PlainDecimal(core, whole, dotted, fraction)
    ensures AllDigits(whole) && AllDigits(fraction)
  {
  }

  lemma {:induction false} TrimmedParts(text: string) returns (before: string, after: string)
    ensures AllTrimmable(before) && AllTrimmable(after) && text == before + (TrimEnd(TrimStart(text)) + after)
  {
    hide AllTrimmable, TrimStart, TrimEnd;
    before := StartTrims(text);
    after := EndTrims(TrimStart(text));
  }

  lemma {:induction false} StartTrims(s: string) returns (before: string)
    ensures AllTrimmable(before) && s == before + TrimStart(s)
  {
    hide TrimChar, Trimmable;
    TrimCharIs();
    if s != "" && TrimChar(s[0]) {
      var rest := StartTrims(s[1..]);
      before := [s[0]] + rest;
      assert s == [s[0]] + s[1..];
    } else {
      before := "";
    }
  }

  lemma {:induction false} EndTrims(s: string) returns (after: string)
    ensures AllTrimmable(after) && s == TrimEnd(s) + after
  {
    hide TrimChar, Trimmable;
    TrimCharIs();
    var n := |s|;
    if s != "" && TrimChar(s[n - 1]) {
      var rest := EndTrims(s[..n - 1]);
      after := rest + [s[n - 1]];
      assert s == s[..n - 1] + [s[n - 1]];
    } else {
      after := "";
    }
  }

  lemma {:induction false} ValueParts(core: string, scale: nat) returns (whole: string, dotted: bool, fraction: string)
    requires ScaledValue(core, scale).Some?
    ensures PlainDecimal(core, whole, dotted, fraction)
  {
    hide AllDigits, Natural, FractionOf;
    var i := DigitsEnd(core, 0);
    whole, dotted := core[0..i], DotAt(core, i);
    fraction := if dotted then core[i + 1..] else "";
    NoDigits();
    if dotted {
      assert core[i + 1..|core|] == core[i + 1..] && core == core[0..i] + ("." + core[i + 1..]);
    } else {
      assert core == core[0..i] + "";
    }
  }

  lemma {:induction false} NoDigits()
    ensures AllDigits("")
  {
  }
}
