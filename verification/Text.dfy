/**
 Byte texts: a text standing at a position of a larger one, and runs of decimal digits. A byte is a
 `char` whose code is below 256; every statement holds for all strings.
 */
module Text {

  // ----- texts placed in a source -----

  /** `text` stands in `src` from `pos` on. */
  ghost predicate At(src: string, pos: nat, text: string) {
    pos + |text| <= |src| && src[pos..pos + |text|] == text
  }

  lemma {:induction false} AtConcat(src: string, pos: nat, a: string, b: string)
    ensures At(src, pos, a + b) <==> At(src, pos, a) && At(src, pos + |a|, b)
  {
    if At(src, pos, a + b) {
      assert src[pos..pos + |a|] == src[pos..pos + |a + b|][..|a|];
      assert src[pos + |a|..pos + |a| + |b|] == src[pos..pos + |a + b|][|a|..];
      assert (a + b)[..|a|] == a && (a + b)[|a|..] == b;
    }
    if At(src, pos, a) && At(src, pos + |a|, b) {
      assert src[pos..pos + |a + b|] == src[pos..pos + |a|] + src[pos + |a|..pos + |a| + |b|];
    }
  }

  lemma {:induction false} SliceIsAt(src: string, pos: nat, e: nat)
    requires pos <= e <= |src|
    ensures At(src, pos, src[pos..e])
  {
  }

  lemma {:induction false} AtIsSlice(src: string, pos: nat, text: string)
    requires At(src, pos, text)
    ensures pos + |text| <= |src| && src[pos..pos + |text|] == text
  {
  }

  lemma {:induction false} AtHead(src: string, pos: nat, text: string)
    requires At(src, pos, text) && text != ""
    ensures pos + |text| <= |src| && src[pos] == text[0]
  {
    assert src[pos..pos + |text|][0] == src[pos];
  }

  lemma {:induction false} AtByte(src: string, pos: nat, text: string, i: nat)
    requires At(src, pos, text) && i < |text|
    ensures pos + i < |src| && src[pos + i] == text[i]
  {
    assert src[pos..pos + |text|][i] == src[pos + i];
  }

  lemma {:induction false} SliceOfSlice(src: string, a: nat, b: nat, i: nat, j: nat)
    requires i <= j && a + j <= b <= |src|
    ensures src[a..b][i..j] == src[a + i..a + j]
  {
    var whole := src[a..b];
    forall x | 0 <= x < j - i ensures whole[i..j][x] == src[a + i..a + j][x] {
      assert whole[i + x] == src[a + i + x];
    }
    assert |whole[i..j]| == |src[a + i..a + j]|;
  }

  // ----- bytes by their codes -----

  /** The ASCII letters. */
  predicate Letter(c: char) {
    var n := c as int;
    65 <= n <= 90 || 97 <= n <= 122
  }

  /** The ASCII digits. */
  predicate Numeral(c: char) {
    48 <= c as int <= 57
  }

  // ----- digits -----

  predicate Digit(c: char) {
    '0' <= c <= '9'
  }

  predicate AllDigits(s: string) {
    forall i :: 0 <= i < |s| ==> Digit(s[i])
  }

  function DigitOf(c: char): (d: nat)
    requires Digit(c)
    ensures d < 10
  {
    c as int - '0' as int
  }

  function DigitChar(d: int): (c: char)
    requires 0 <= d < 10
    ensures Digit(c) && DigitOf(c) == d
  {
    '0' + d as char
  }

  /** The end of the run of digits at `pos`. */
  function DigitsEnd(src: string, pos: nat): (r: nat)
    ensures pos <= r && (pos <= |src| ==> r <= |src|)
    ensures pos <= |src| ==> AllDigits(src[pos..(r)])
    ensures r < |src| ==> !Digit(src[r])
    decreases |src| - pos
  {
    if pos < |src| && Digit(src[pos]) then
      var r := DigitsEnd(src, pos + 1);
      assert src[pos..r] == [src[pos]] + src[pos + 1..r];
      r
    else pos
  }

  lemma {:induction false} DigitsInside(src: string, pos: nat, i: nat)
    requires pos <= |src| && pos <= i < DigitsEnd(src, pos)
    ensures Digit(src[i])
  {
    var run := src[pos..DigitsEnd(src, pos)];
    assert AllDigits(run) && run[i - pos] == src[i];
  }

  lemma {:induction false} DigitsEndExact(src: string, pos: nat, e: nat)
    requires pos <= e <= |src| && AllDigits(src[pos..e]) && (e < |src| ==> !Digit(src[e]))
    ensures DigitsEnd(src, pos) == e
    decreases e - pos
  {
    if pos < e {
      assert src[pos..e][0] == src[pos];
      assert src[pos + 1..e] == src[pos..e][1..];
      DigitsEndExact(src, pos + 1, e);
    }
  }

  /** The loop every scanner here runs over digits. */
  method SkipDigits(src: string, pos: nat) returns (end: nat)
    requires pos <= |src|
    ensures end == DigitsEnd(src, pos)
  {
    end := pos;
    while end < |src| && Digit(src[end])
      invariant pos <= end <= |src|
      invariant DigitsEnd(src, pos) == DigitsEnd(src, end)
    {
      end := end + 1;
    }
  }

  // ----- runs of any class of bytes -----

  predicate Every(ok: char -> bool, s: string) {
    forall i :: 0 <= i < |s| ==> ok(s[i])
  }

  /** The end of the run of `ok` bytes at `pos`. */
  function RunEnd(line: string, pos: nat, ok: char -> bool): (r: nat)
    requires pos <= |line|
    ensures pos <= r <= |line| && Every(ok, line[pos..(r)]) && (r < |line| ==> !ok(line[r]))
    decreases |line| - pos
  {
    if pos < |line| && ok(line[pos]) then
      var r := RunEnd(line, pos + 1, ok);
      assert line[pos..r] == [line[pos]] + line[pos + 1..r];
      r
    else pos
  }

  lemma {:induction false} RunByte(tok: string, i: nat, ok: char -> bool, k: nat)
    requires i <= k < |tok| && k < RunEnd(tok, i, ok)
    ensures ok(tok[k])
  {
    assert ok(tok[i..RunEnd(tok, i, ok)][k - i]);
  }

  lemma {:induction false} RunExact(line: string, pos: nat, ok: char -> bool, text: string)
    requires At(line, pos, text) && Every(ok, text)
    requires pos + |text| < |line| ==> !ok(line[pos + |text|])
    ensures RunEnd(line, pos, ok) == pos + |text|
    decreases |text|
  {
    if text != "" {
      AtByte(line, pos, text, 0);
      assert line[pos + 1..pos + |text|] == line[pos..pos + |text|][1..];
      RunExact(line, pos + 1, ok, text[1..]);
    }
  }

  method SkipRun(line: string, start: nat, ok: char -> bool) returns (pos: nat)
    requires start <= |line|
    ensures pos == RunEnd(line, start, ok)
  {
    pos := start;
    while pos < |line| && ok(line[pos])
      invariant start <= pos <= |line| && RunEnd(line, pos, ok) == RunEnd(line, start, ok)
    {
      pos := pos + 1;
    }
  }
}
