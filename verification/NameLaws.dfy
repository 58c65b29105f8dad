/**
 The bodies of JSON strings as they are written, atom by atom: which texts are bodies, and what each body means.
 */
module NameLaws {
  import opened Wrappers
  import opened Text
  import opened JsonGrammar
  import opened JsonNames
  import Utf8

  /** A byte that stands for itself, an escape of one letter or mark, or a `\u` with its digits. */
  datatype Atom = Itself(c: char) | Escaped(c: char) | Coded(digits: string)

  /** The value of a hexadecimal digit, by its code. */
  function Nibble(c: char): int {
    var n := c as int;
    if 48 <= n <= 57 then n - 48 else if 65 <= n <= 70 then n - 55 else if 97 <= n <= 102 then n - 87 else -1
  }

  function Coordinate(digits: string): int
    requires |digits| == 4
  {
    4096 * Nibble(digits[0]) + 256 * Nibble(digits[1]) + 16 * Nibble(digits[2]) + Nibble(digits[3])
  }

  predicate AtomWf(a: Atom) {
    match a
    case Itself(c) => c as int >= 32 && c as int != 34 && c as int != 92
    case Escaped(c) => c in "\"\\/bfnrt"
    case Coded(digits) => |digits| == 4 && forall i :: 0 <= i < 4 ==> Nibble(digits[i]) >= 0
  }

  predicate AtomsWf(atoms: seq<Atom>) {
    forall i :: 0 <= i < |atoms| ==> AtomWf(atoms[i])
  }

  function AtomText(a: Atom): string {
    match a
    case Itself(c) => [c]
    case Escaped(c) => ['\\', c]
    case Coded(digits) => ['\\', 'u'] + digits
  }

  function AtomsText(atoms: seq<Atom>): string {
    if atoms == [] then "" else AtomText(atoms[0]) + AtomsText(atoms[1..])
  }

  /** The code of an escaped letter: backspace, form feed, line feed, carriage return, tab; a mark means itself. */
  function EscapedCode(c: char): int {
    if c == 'b' then 8 else if c == 'f' then 12 else if c == 'n' then 10 else if c == 'r' then 13 else if c == 't' then 9
    else c as int
  }

  /** A `\u` names the upper half of a surrogate pair and the atom behind it the lower. */
  predicate Paired(atoms: seq<Atom>)
    requires AtomsWf(atoms)
  {
    |atoms| > 1 && atoms[0].Coded? && atoms[1].Coded? &&
    0xD800 <= Coordinate(atoms[0].digits) <= 0xDBFF && 0xDC00 <= Coordinate(atoms[1].digits) <= 0xDFFF
  }

  lemma {:induction false} CoordinateInRange(digits: string)
    requires AtomWf(Coded(digits))
    ensures 0 <= Coordinate(digits) < 0x10000
  {
    assert Nibble(digits[0]) <= 15 && Nibble(digits[1]) <= 15 && Nibble(digits[2]) <= 15 && Nibble(digits[3]) <= 15;
  }

  function OneChar(code: int): string {
    if 0 <= code < 0x110000 then Chars(Utf8.Encode(code)) else ""
  }

  /** What the atoms mean: a surrogate pair is one character, every other `\u` its own, a lone surrogate included. */
  function Meant(atoms: seq<Atom>): string
    requires AtomsWf(atoms)
    decreases |atoms|
  {
    if atoms == [] then ""
    else if Paired(atoms) then
      OneChar(0x10000 + 0x400 * (Coordinate(atoms[0].digits) - 0xD800) + (Coordinate(atoms[1].digits) - 0xDC00)) + Meant(atoms[2..])
    else
      (match atoms[0]
       case Itself(c) => [c]
       case Escaped(c) => [EscapedCode(c) as char]
       case Coded(digits) => OneChar(Coordinate(digits))) + Meant(atoms[1..])
  }

  // ----- every list of atoms is a body with that meaning -----

  lemma {:induction false} NibbleIs(c: char)
    ensures Hex(c) <==> Nibble(c) >= 0
    ensures Hex(c) ==> HexValue(c) == Nibble(c)
  {
  }

  lemma {:induction false} CodedReads(digits: string, rest: string)
    requires AtomWf(Coded(digits))
    ensures var b := ['\\', 'u'] + digits + rest;
      HexQuad(b, 2) && CodeAt(b, 2) == Coordinate(digits) && b[6..] == rest && (StringBody(rest) ==> StringBody(b))
  {
    hide Hex, HexValue, Nibble;
    NibbleIs(digits[0]);
    NibbleIs(digits[1]);
    NibbleIs(digits[2]);
    NibbleIs(digits[3]);
    var b := ['\\', 'u'] + digits + rest;
    assert b[2] == digits[0] && b[3] == digits[1] && b[4] == digits[2] && b[5] == digits[3];
    assert b[6..] == rest;
  }

  lemma {:induction false} AtomBody(a: Atom, rest: string)
    requires AtomWf(a) && StringBody(rest)
    ensures StringBody(AtomText(a) + rest) && (AtomText(a) + rest)[|AtomText(a)|..] == rest
  {
    match a
    case Itself(c) =>
      assert ([c] + rest)[1..] == rest;
    case Escaped(c) =>
      assert (['\\', c] + rest)[2..] == rest;
    case Coded(digits) =>
      CodedReads(digits, rest);
  }

  lemma {:induction false} AtomsAreBodies(atoms: seq<Atom>)
    requires AtomsWf(atoms)
    ensures StringBody(AtomsText(atoms))
  {
    hide AtomWf, AtomText;
    if atoms != [] {
      AtomsAreBodies(atoms[1..]);
      AtomBody(atoms[0], AtomsText(atoms[1..]));
    }
  }

  lemma {:induction false} EscapedReads(c: char, rest: string)
    requires c in "\"\\/bfnrt" && StringBody(rest)
    ensures var b := ['\\', c] + rest;
      StringBody(b) && StepLength(b) == 2 && StepText(b) == [EscapedCode(c) as char] && b[2..] == rest
  {
    hide Utf8Chars, CodeAt;
    assert (['\\', c] + rest)[2..] == rest;
  }

  /** The atom behind a `\u`, read in the whole body. */
  lemma {:induction false} SecondReads(atoms: seq<Atom>, b: string)
    requires AtomsWf(atoms) && |atoms| > 1 && |b| >= 6 && b[6..] == AtomsText(atoms[1..])
    ensures atoms[1].Coded? <==> |b| >= 8 && b[6] == '\\' && b[7] == 'u'
    ensures atoms[1].Coded? ==> HexQuad(b, 8) && CodeAt(b, 8) == Coordinate(atoms[1].digits) && |b| >= 12 && b[12..] == AtomsText(atoms[2..])
  {
    hide HexQuad, CodeAt, Coordinate, Nibble;
    assert atoms[1..][0] == atoms[1] && atoms[1..][1..] == atoms[2..];
    NextAtom(atoms[1..]);
    assert |b| >= 8 ==> b[6] == b[6..][0] && b[7] == b[6..][1];
    if atoms[1].Coded? {
      CodedReads(atoms[1].digits, AtomsText(atoms[2..]));
      CodeShift(b, 6, 2);
      assert b[12..] == b[6..][6..];
    }
  }

  /** Behind a `\u` of an upper half only a `\u` of a lower half pairs. */
  lemma {:induction false} PairOpensIs(atoms: seq<Atom>)
    requires AtomsWf(atoms) && atoms != [] && atoms[0].Coded?
    ensures var b := AtomsText(atoms);
      && b == (['\\', 'u'] + atoms[0].digits) + AtomsText(atoms[1..]) && HexQuad(b, 2) && CodeAt(b, 2) == Coordinate(atoms[0].digits)
      && (PairOpens(b) <==> Paired(atoms))
      && (Paired(atoms) ==> HexQuad(b, 8) && CodeAt(b, 8) == Coordinate(atoms[1].digits) && |b| >= 12 && b[12..] == AtomsText(atoms[2..]))
  {
    hide HexQuad, CodeAt, StringBody, Coordinate;
    var b, rest := AtomsText(atoms), AtomsText(atoms[1..]);
    CodedReads(atoms[0].digits, rest);
    if |atoms| > 1 {
      SecondReads(atoms, b);
    }
  }

  lemma {:induction false} NextAtom(atoms: seq<Atom>)
    requires AtomsWf(atoms) && atoms != []
    ensures var t := AtomsText(atoms);
      && t == AtomText(atoms[0]) + AtomsText(atoms[1..]) && t != ""
      && (atoms[0].Coded? <==> |t| >= 2 && t[0] == '\\' && t[1] == 'u')
  {
    hide Nibble;
  }

  lemma {:induction false} AtomsMean(atoms: seq<Atom>)
    requires AtomsWf(atoms)
    ensures StringBody(AtomsText(atoms)) && Unescape(AtomsText(atoms)) == Meant(atoms)
    decreases |atoms|
  {
    hide StringBody, HexQuad, CodeAt, Utf8Chars, OneChar, Coordinate, AtomWf, Paired, Nibble;
    AtomsAreBodies(atoms);
    if atoms != [] {
      AtomsAreBodies(atoms[1..]);
      AtomsMean(atoms[1..]);
      HeadMeans(atoms);
      if Paired(atoms) {
        PairedLong(atoms);
        AtomsAreBodies(atoms[2..]);
        AtomsMean(atoms[2..]);
      }
    }
  }

  lemma {:induction false} PairedLong(atoms: seq<Atom>)
    requires AtomsWf(atoms) && Paired(atoms)
    ensures |atoms| > 1 && AtomsWf(atoms[2..])
  {
    hide AtomWf;
  }

  /** One unescaping step. */
  lemma {:induction false} HeadMeans(atoms: seq<Atom>)
    requires AtomsWf(atoms) && atoms != [] && StringBody(AtomsText(atoms)) && StringBody(AtomsText(atoms[1..]))
    ensures var b := AtomsText(atoms);
      if Paired(atoms) then
        && b[StepLength(b)..] == AtomsText(atoms[2..])
        && StepText(b) == OneChar(0x10000 + 0x400 * (Coordinate(atoms[0].digits) - 0xD800) + (Coordinate(atoms[1].digits) - 0xDC00))
      else
        && b[StepLength(b)..] == AtomsText(atoms[1..])
        && StepText(b) == match atoms[0]
             case Itself(c) => [c]
             case Escaped(c) => [EscapedCode(c) as char]
             case Coded(digits) => OneChar(Coordinate(digits))
  {
    hide StringBody, HexQuad, CodeAt, Chars, Coordinate, Nibble;
    var b, rest := AtomsText(atoms), AtomsText(atoms[1..]);
    match atoms[0]
    case Itself(c) =>
      assert b == [c] + rest && b[1..] == rest;
    case Escaped(c) =>
      EscapedReads(c, rest);
    case Coded(digits) =>
      PairOpensIs(atoms);
      CodedReads(digits, rest);
      CoordinateInRange(digits);
  }

  // ----- every body is written so -----

  lemma {:induction false} AtomsExist(b: string) returns (atoms: seq<Atom>)
    requires StringBody(b)
    ensures AtomsWf(atoms) && AtomsText(atoms) == b
    decreases |b|
  {
    hide Hex, Nibble;
    if b == "" {
      atoms := [];
    } else {
      var a := FirstAtom(b);
      var n := |AtomText(a)|;
      atoms := AtomsExist(b[n..]);
      var rest := atoms;
      atoms := [a] + rest;
      assert atoms[1..] == rest && b == AtomText(a) + b[n..];
    }
  }

  lemma {:induction false} FirstAtom(b: string) returns (a: Atom)
    requires StringBody(b) && b != ""
    ensures AtomWf(a) && |AtomText(a)| <= |b| && b[..|AtomText(a)|] == AtomText(a) && StringBody(b[|AtomText(a)|..])
  {
    hide Hex, Nibble;
    if b[0] != '\\' {
      a := Itself(b[0]);
      assert b[..1] == [b[0]];
    } else if SimpleEscape(b[1]) && StringBody(b[2..]) {
      a := Escaped(b[1]);
      assert b[..2] == ['\\', b[1]];
    } else {
      a := Coded(b[2..6]);
      NibbleIs(b[2]);
      NibbleIs(b[3]);
      NibbleIs(b[4]);
      NibbleIs(b[5]);
      assert b[..6] == ['\\', 'u'] + b[2..6];
    }
  }

  ghost predicate WrittenAs(b: string, atoms: seq<Atom>) {
    AtomsWf(atoms) && AtomsText(atoms) == b
  }

  /** A text is the body of a string if and only if it is written in atoms, and then it means what they mean. */
  lemma {:induction false} BodyExactly(b: string)
    ensures StringBody(b) <==> exists atoms :: WrittenAs(b, atoms)
    ensures forall atoms :: WrittenAs(b, atoms) ==> Unescape(b) == Meant(atoms)
  {
    hide StringBody, Meant, Unescape, AtomsWf;
    forall atoms | WrittenAs(b, atoms)
      ensures StringBody(b) && Unescape(b) == Meant(atoms)
    {
      AtomsMean(atoms);
    }
    if StringBody(b) {
      var atoms := AtomsExist(b);
      assert WrittenAs(b, atoms);
    }
  }
}
