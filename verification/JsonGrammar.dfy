/**
 The scalar and separator grammar of RFC 8259, twice: declaratively, as predicates on whole texts
 (sections 2, 3, 6 and 7 of RFC 8259), and as the left-to-right scanners of
 core/src/mask/mask.cpp. Each scanner is proved to stop exactly where the grammar says.

 A byte is a `char` whose code is below 256; every statement holds for all strings.
 */
module JsonGrammar {
  import opened Wrappers
  import opened Text

  // ----- blanks -----

  predicate Blank(c: char) {
    c == ' ' || c == '\t' || c == '\n' || c == '\r'
  }

  /** The blanks of section 2 of RFC 8259: space, tab, line feed and carriage return. */
  lemma {:induction false} BlankIs(c: char)
    ensures Blank(c) <==> c as int in [0x20, 0x09, 0x0A, 0x0D]
  {
  }

  predicate AllBlank(s: string) {
    forall i :: 0 <= i < |s| ==> Blank(s[i])
  }

  function SkipBlanks(src: string, pos: nat): (r: nat)
    ensures pos <= r && (pos <= |src| ==> r <= |src|)
    ensures pos <= |src| ==> AllBlank(src[pos..(r)])
    ensures r < |src| ==> !Blank(src[r])
    decreases |src| - pos
  {
    if pos < |src| && Blank(src[pos]) then
      var r := SkipBlanks(src, pos + 1);
      assert src[pos..r] == [src[pos]] + src[pos + 1..r];
      r
    else pos
  }

  /** A blank text followed by a non-blank or the end is skipped whole. */
  lemma {:induction false} SkipBlanksExact(src: string, pos: nat, blanks: string)
    requires At(src, pos, blanks) && AllBlank(blanks)
    requires pos + |blanks| < |src| ==> !Blank(src[pos + |blanks|])
    ensures SkipBlanks(src, pos) == pos + |blanks|
    decreases |blanks|
  {
    if blanks != "" {
      assert src[pos] == src[pos..pos + |blanks|][0];
      assert src[pos + 1..pos + |blanks|] == src[pos..pos + |blanks|][1..];
      SkipBlanksExact(src, pos + 1, blanks[1..]);
    }
  }

  // ----- hexadecimal digits -----

  /** The value of one hexadecimal digit, 16 when `c` is none. */
  function HexValue(c: char): (v: nat)
    ensures v <= 16
  {
    if Digit(c) then c as int - '0' as int
    else if 'a' <= c <= 'f' then c as int - 'a' as int + 10
    else if 'A' <= c <= 'F' then c as int - 'A' as int + 10
    else 16
  }

  predicate Hex(c: char) {
    HexValue(c) < 16
  }

  // ----- strings -----

  const SIMPLE_ESCAPES := "\"\\/bfnrt"

  predicate SimpleEscape(c: char) {
    c in SIMPLE_ESCAPES
  }

  /** Section 7 of RFC 8259: what may stand between the quotes. */
  predicate StringBody(b: string) {
    if b == "" then true
    else if b[0] == '\\' then
      || (|b| >= 2 && SimpleEscape(b[1]) && StringBody(b[2..]))
      || (|b| >= 6 && b[1] == 'u' && Hex(b[2]) && Hex(b[3]) && Hex(b[4]) && Hex(b[5]) && StringBody(b[6..]))
    else b[0] != '"' && b[0] >= ' ' && StringBody(b[1..])
  }

  predicate StringText(t: string) {
    |t| >= 2 && t[0] == '"' && t[|t| - 1] == '"' && StringBody(t[1..|t| - 1])
  }

  /** The index after the quote that closes the string whose body continues at `pos`. */
  function BodyEnd(src: string, pos: nat): (r: Option<nat>)
    ensures r.Some? ==> pos < r.value <= |src|
    decreases |src| - pos
  {
    if pos >= |src| then None
    else if src[pos] == '"' then Some(pos + 1)
    else if src[pos] < ' ' then None
    else if src[pos] != '\\' then BodyEnd(src, pos + 1)
    else if pos + 1 >= |src| then None
    else if src[pos + 1] == 'u' then
      if pos + 5 < |src| && Hex(src[pos + 2]) && Hex(src[pos + 3]) && Hex(src[pos + 4]) && Hex(src[pos + 5])
      then BodyEnd(src, pos + 6)
      else None
    else if SimpleEscape(src[pos + 1]) then BodyEnd(src, pos + 2)
    else None
  }

  /** The index after the string that opens at `pos`. */
  function StringEnd(src: string, pos: nat): (r: Option<nat>)
    requires pos < |src|
    ensures r.Some? ==> pos + 1 < r.value <= |src|
  {
    BodyEnd(src, pos + 1)
  }

  lemma {:induction false} BodyEndSound(src: string, pos: nat)
    requires BodyEnd(src, pos).Some?
    ensures var e := BodyEnd(src, pos).value; src[e - 1] == '"' && StringBody(src[pos..e - 1])
    decreases |src| - pos
  {
    var e := BodyEnd(src, pos).value;
    if src[pos] == '"' {
      assert src[pos..e - 1] == "";
    } else {
      var step := if src[pos] != '\\' then 1 else if src[pos + 1] == 'u' then 6 else 2;
      BodyEndSound(src, pos + step);
      var b := src[pos..e - 1];
      assert b[step..] == src[pos + step..e - 1];
    }
  }

  lemma {:induction false} BodyEndComplete(src: string, pos: nat, e: nat)
    requires pos < e <= |src| && src[e - 1] == '"' && StringBody(src[pos..e - 1])
    ensures BodyEnd(src, pos) == Some(e)
    decreases |src| - pos
  {
    var b := src[pos..e - 1];
    if b != "" {
      assert b[0] == src[pos];
      var step := if b[0] != '\\' then 1 else if b[1] == 'u' then 6 else 2;
      assert b[step..] == src[pos + step..e - 1];
      BodyEndComplete(src, pos + step, e);
    }
  }

  /** The string scanner stops at `e` exactly when the bytes up to `e` are one string. */
  lemma {:induction false} StringEndExact(src: string, pos: nat, e: nat)
    requires pos < |src| && src[pos] == '"'
    ensures StringEnd(src, pos) == Some(e) <==> pos < e <= |src| && StringText(src[pos..e])
  {
    if StringEnd(src, pos) == Some(e) {
      BodyEndSound(src, pos + 1);
      SliceOfSlice(src, pos, e, 1, e - 1 - pos);
    }
    if pos < e <= |src| && StringText(src[pos..e]) {
      SliceOfSlice(src, pos, e, 1, e - 1 - pos);
      BodyEndComplete(src, pos + 1, e);
    }
  }

  // ----- numbers -----

  predicate IntText(s: string) {
    s == "0" || (s != "" && s[0] != '0' && AllDigits(s))
  }

  predicate FracText(s: string) {
    s == "" || (|s| >= 2 && s[0] == '.' && AllDigits(s[1..]))
  }

  predicate ExpDigits(s: string) {
    s != "" && AllDigits(s)
  }

  predicate ExpText(s: string) {
    s == "" ||
    (|s| >= 2 && (s[0] == 'e' || s[0] == 'E') &&
     (ExpDigits(s[1..]) || ((s[1] == '+' || s[1] == '-') && ExpDigits(s[2..]))))
  }

  /** Section 6 of RFC 8259: optional minus, integer, optional fraction, optional exponent. */
  ghost predicate NumberText(t: string) {
    exists i: nat, j: nat, k: nat :: NumberParts(t, i, j, k)
  }

  ghost predicate NumberParts(t: string, i: nat, j: nat, k: nat) {
    i <= j <= k <= |t| && (t[..i] == "" || t[..i] == "-") && IntText(t[i..j]) && FracText(t[j..k]) && ExpText(t[k..])
  }

  function MinusEnd(src: string, pos: nat): (r: nat)
    ensures pos <= r && (pos <= |src| ==> r <= |src|)
  {
    if pos < |src| && src[pos] == '-' then pos + 1 else pos
  }

  function IntEnd(src: string, pos: nat): (r: Option<nat>)
    requires pos <= |src|
    ensures r.Some? ==> pos < r.value <= |src|
  {
    if pos < |src| && src[pos] == '0' then Some(pos + 1)
    else if DigitsEnd(src, pos) == pos then None
    else Some(DigitsEnd(src, pos))
  }

  function FracEnd(src: string, pos: nat): (r: Option<nat>)
    requires pos <= |src|
    ensures r.Some? ==> pos <= r.value <= |src|
  {
    if pos < |src| && src[pos] == '.' then
      if DigitsEnd(src, pos + 1) == pos + 1 then None else Some(DigitsEnd(src, pos + 1))
    else Some(pos)
  }

  function ExpEnd(src: string, pos: nat): (r: Option<nat>)
    requires pos <= |src|
    ensures r.Some? ==> pos <= r.value <= |src|
  {
    if pos < |src| && (src[pos] == 'e' || src[pos] == 'E') then
      var d := if pos + 1 < |src| && (src[pos + 1] == '+' || src[pos + 1] == '-') then pos + 2 else pos + 1;
      if DigitsEnd(src, d) == d then None else Some(DigitsEnd(src, d))
    else Some(pos)
  }

  function NumberEnd(src: string, pos: nat): (r: Option<nat>)
    requires pos <= |src|
    ensures r.Some? ==> pos < r.value <= |src|
  {
    match IntEnd(src, MinusEnd(src, pos))
    case None => None
    case Some(j) =>
      match FracEnd(src, j)
      case None => None
      case Some(k) => ExpEnd(src, k)
  }

  lemma {:induction false} IntEndSound(src: string, i: nat)
    requires i <= |src| && IntEnd(src, i).Some?
    ensures IntText(src[i..IntEnd(src, i).value])
  {
    var j := IntEnd(src, i).value;
    assert src[i..j][0] == src[i];
  }

  lemma {:induction false} FracEndSound(src: string, j: nat)
    requires j <= |src| && FracEnd(src, j).Some?
    ensures FracText(src[j..FracEnd(src, j).value])
  {
    var k := FracEnd(src, j).value;
    if j < k {
      assert src[j..k][1..] == src[j + 1..k];
    }
  }

  lemma {:induction false} ExpEndSound(src: string, k: nat)
    requires k <= |src| && ExpEnd(src, k).Some?
    ensures ExpText(src[k..ExpEnd(src, k).value])
  {
    var e := ExpEnd(src, k).value;
    if k < e {
      assert src[k..e][1..] == src[k + 1..e];
      if src[k + 1] == '+' || src[k + 1] == '-' {
        assert src[k..e][2..] == src[k + 2..e];
      }
    }
  }

  lemma {:induction false} NumberEndSound(src: string, pos: nat)
    requires pos <= |src| && NumberEnd(src, pos).Some?
    ensures NumberText(src[pos..NumberEnd(src, pos).value])
  {
    hide IntEnd, FracEnd, ExpEnd, IntText, FracText, ExpText;
    var i := MinusEnd(src, pos);
    var j := IntEnd(src, i).value;
    var k := FracEnd(src, j).value;
    var e := ExpEnd(src, k).value;
    IntEndSound(src, i);
    FracEndSound(src, j);
    ExpEndSound(src, k);
    SliceOfSlice(src, pos, e, 0, i - pos);
    SliceOfSlice(src, pos, e, i - pos, j - pos);
    SliceOfSlice(src, pos, e, j - pos, k - pos);
    SliceOfSlice(src, pos, e, k - pos, e - pos);
    assert src[pos..i] == "" || src[pos..i] == "-";
    assert NumberParts(src[pos..e], i - pos, j - pos, k - pos);
  }

  /** The bytes that could prolong a number. */
  predicate NumberByte(c: char) {
    Digit(c) || c == '.' || c == 'e' || c == 'E' || c == '+' || c == '-'
  }

  lemma {:induction false} ExpEndComplete(src: string, k: nat, e: nat)
    requires k <= e <= |src| && ExpText(src[k..e]) && (e < |src| ==> !NumberByte(src[e]))
    ensures ExpEnd(src, k) == Some(e)
  {
    var t := src[k..e];
    if t != "" {
      assert t[0] == src[k] && t[1] == src[k + 1];
      if src[k + 1] == '+' || src[k + 1] == '-' {
        assert t[1..][0] == src[k + 1];
        assert t[2..] == src[k + 2..e];
        DigitsEndExact(src, k + 2, e);
      } else {
        assert t[1..] == src[k + 1..e];
        DigitsEndExact(src, k + 1, e);
      }
    }
  }

  lemma {:induction false} FracEndComplete(src: string, j: nat, k: nat)
    requires j <= k <= |src| && FracText(src[j..k])
    requires k < |src| ==> !Digit(src[k]) && (j == k ==> src[k] != '.')
    ensures FracEnd(src, j) == Some(k)
  {
    var t := src[j..k];
    if t != "" {
      assert t[0] == src[j];
      assert t[1..] == src[j + 1..k];
      DigitsEndExact(src, j + 1, k);
    }
  }

  lemma {:induction false} IntEndComplete(src: string, i: nat, j: nat)
    requires i <= j <= |src| && IntText(src[i..j])
    requires j < |src| ==> !Digit(src[j])
    ensures IntEnd(src, i) == Some(j)
  {
    var t := src[i..j];
    assert t[0] == src[i];
    if t != "0" {
      DigitsEndExact(src, i, j);
    }
  }

  lemma {:induction false} IntTextHead(s: string)
    requires IntText(s)
    ensures Digit(s[0])
  {
  }

  /** A number text that nothing prolongs is scanned whole. */
  lemma {:induction false} NumberEndComplete(src: string, pos: nat, e: nat)
    requires pos <= e <= |src| && NumberText(src[pos..e])
    requires e < |src| ==> !NumberByte(src[e])
    ensures NumberEnd(src, pos) == Some(e)
  {
    var i: nat, j: nat, k: nat :| NumberParts(src[pos..e], i, j, k);
    NumberPartsComplete(src, pos, e, i, j, k);
  }

  lemma {:induction false} NumberPartsComplete(src: string, pos: nat, e: nat, i: nat, j: nat, k: nat)
    requires pos <= e <= |src| && NumberParts(src[pos..e], i, j, k)
    requires e < |src| ==> !NumberByte(src[e])
    ensures NumberEnd(src, pos) == Some(e)
  {
    hide IntText, FracText, ExpText, IntEnd, FracEnd, ExpEnd, MinusEnd;
    NumberPartsPlaced(src, pos, e, i, j, k);
    NumberPartsScanned(src, pos, pos + i, pos + j, pos + k, e);
  }

  lemma {:induction false} NumberPartsPlaced(src: string, pos: nat, e: nat, i: nat, j: nat, k: nat)
    requires pos <= e <= |src| && NumberParts(src[pos..e], i, j, k)
    ensures pos + i <= pos + j <= pos + k <= e
    ensures IntText(src[pos + i..pos + j]) && FracText(src[pos + j..pos + k]) && ExpText(src[pos + k..e])
    ensures MinusEnd(src, pos) == pos + i
  {
    var t := src[pos..e];
    SliceOfSlice(src, pos, e, i, j);
    SliceOfSlice(src, pos, e, j, k);
    SliceOfSlice(src, pos, e, k, e - pos);
    assert t[k..] == t[k..e - pos];
    IntTextHead(t[i..j]);
    assert src[pos + i..pos + j][0] == src[pos + i];
    if i > 0 {
      assert t[..i][0] == src[pos];
    }
  }

  lemma {:induction false} NumberPartsScanned(src: string, pos: nat, i: nat, j: nat, k: nat, e: nat)
    requires pos <= i <= j <= k <= e <= |src|
    requires IntText(src[i..j]) && FracText(src[j..k]) && ExpText(src[k..e])
    requires e < |src| ==> !NumberByte(src[e])
    ensures IntEnd(src, i) == Some(j) && FracEnd(src, j) == Some(k) && ExpEnd(src, k) == Some(e)
  {
    ExpEndComplete(src, k, e);
    assert k < e ==> src[k] == src[k..e][0];
    FracEndComplete(src, j, k);
    assert j < k ==> src[j] == src[j..k][0];
    IntEndComplete(src, i, j);
  }

  // ----- scalars -----

  const WORDS: seq<string> := ["true", "false", "null"]

  ghost predicate ScalarText(t: string) {
    StringText(t) || t in WORDS || NumberText(t)
  }

  predicate StartsWith(src: string, pos: nat, word: string) {
    pos + |word| <= |src| && src[pos..pos + |word|] == word
  }

  /** The index after the string, literal word or number at `pos`. */
  function ScalarEnd(src: string, pos: nat): (r: Option<nat>)
    requires pos < |src|
    ensures r.Some? ==> pos < r.value <= |src|
  {
    if src[pos] == '"' then StringEnd(src, pos)
    else if StartsWith(src, pos, "true") then Some(pos + 4)
    else if StartsWith(src, pos, "false") then Some(pos + 5)
    else if StartsWith(src, pos, "null") then Some(pos + 4)
    else NumberEnd(src, pos)
  }

  lemma {:induction false} ScalarEndSound(src: string, pos: nat)
    requires pos < |src| && ScalarEnd(src, pos).Some?
    ensures ScalarText(src[pos..ScalarEnd(src, pos).value])
  {
    var e := ScalarEnd(src, pos).value;
    if src[pos] == '"' {
      StringEndExact(src, pos, e);
    } else if StartsWith(src, pos, "true") {
      assert src[pos..e] == WORDS[0];
    } else if StartsWith(src, pos, "false") {
      assert src[pos..e] == WORDS[1];
    } else if StartsWith(src, pos, "null") {
      assert src[pos..e] == WORDS[2];
    } else {
      NumberEndSound(src, pos);
    }
  }

  lemma {:induction false} NumberTextHead(t: string)
    requires NumberText(t)
    ensures t != "" && (Digit(t[0]) || t[0] == '-')
  {
    var i: nat, j: nat, k: nat :| NumberParts(t, i, j, k);
    IntTextHead(t[i..j]);
    assert t[i..j][0] == t[i];
    if i > 0 {
      assert t[..i][0] == t[0];
    }
  }

  lemma {:induction false} ScalarTextHead(t: string)
    requires ScalarText(t)
    ensures t != "" && !Blank(t[0]) && t[0] != '{' && t[0] != '[' && t[0] != ']' && t[0] != '}'
  {
    if NumberText(t) {
      NumberTextHead(t);
    }
  }

  /** A scalar text that nothing prolongs is scanned whole. */
  lemma {:induction false} ScalarEndComplete(src: string, pos: nat, t: string)
    requires At(src, pos, t) && ScalarText(t)
    requires pos + |t| < |src| ==> !NumberByte(src[pos + |t|])
    ensures pos < |src| && ScalarEnd(src, pos) == Some(pos + |t|)
  {
    ScalarTextHead(t);
    var e := pos + |t|;
    assert src[pos] == t[0];
    if StringText(t) {
      StringEndExact(src, pos, e);
    } else if t in WORDS {
      assert t == "true" || t == "false" || t == "null";
      if t == "false" {
        NotWord(src, pos, "true");
      } else if t == "null" {
        NotWord(src, pos, "true");
        NotWord(src, pos, "false");
      }
    } else {
      NumberTextHead(t);
      NotWord(src, pos, "true");
      NotWord(src, pos, "false");
      NotWord(src, pos, "null");
      NumberEndComplete(src, pos, e);
    }
  }

  lemma {:induction false} NotWord(src: string, pos: nat, word: string)
    requires pos < |src| && word != "" && src[pos] != word[0]
    ensures !StartsWith(src, pos, word)
  {
    if pos + |word| <= |src| {
      assert src[pos..pos + |word|][0] == src[pos];
    }
  }
}
