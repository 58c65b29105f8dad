/**
 Member names: the bytes an RFC 8259 string denotes, which are the key its member sorts by
 (`unescaped` in core/src/mask/mask.cpp), proved to undo escaping.
 */
module JsonNames {
  import opened Wrappers
  import opened Text
  import opened JsonGrammar
  import Utf8

  const SURROGATE_FIRST: nat := 0xD800
  const LOW_SURROGATE_FIRST: nat := 0xDC00
  const SURROGATE_END: nat := 0xE000

  function Chars(b: Utf8.bytes): (r: string)
    ensures |r| == |b|
  {
    seq(|b|, i requires 0 <= i < |b| => b[i] as char)
  }

  /** `code` as UTF-8; a lone surrogate takes its three-byte form. */
  function Utf8Chars(code: nat): (r: string)
    requires code < 0x110000
    ensures 1 <= |r| <= 4
  {
    Chars(Utf8.Encode(code))
  }

  predicate HexQuad(s: string, at: nat) {
    at + 4 <= |s| && Hex(s[at]) && Hex(s[at + 1]) && Hex(s[at + 2]) && Hex(s[at + 3])
  }

  function CodeAt(s: string, at: nat): (code: nat)
    requires HexQuad(s, at)
    ensures code < 0x10000
  {
    ((HexValue(s[at]) * 16 + HexValue(s[at + 1])) * 16 + HexValue(s[at + 2])) * 16 + HexValue(s[at + 3])
  }

  /** What `\c` stands for. */
  function SimpleChar(c: char): char {
    match c
    case 'b' => '\U{8}'
    case 'f' => '\U{c}'
    case 'n' => '\n'
    case 'r' => '\r'
    case 't' => '\t'
    case _ => c
  }

  predicate HighSurrogate(code: nat) {
    SURROGATE_FIRST <= code < LOW_SURROGATE_FIRST
  }

  predicate LowSurrogate(code: nat) {
    LOW_SURROGATE_FIRST <= code < SURROGATE_END
  }

  /** A `\u` escape opens `b` and is the high half of a surrogate pair whose low half follows. */
  predicate PairOpens(b: string)
    requires HexQuad(b, 2)
  {
    && HighSurrogate(CodeAt(b, 2))
    && |b| >= 8 && b[6] == '\\' && b[7] == 'u' && HexQuad(b, 8)
    && LowSurrogate(CodeAt(b, 8))
  }

  function PairCode(high: nat, low: nat): (code: nat)
    requires HighSurrogate(high) && LowSurrogate(low)
    ensures 0x10000 <= code < 0x110000
  {
    0x10000 + (high - SURROGATE_FIRST) * 1024 + (low - LOW_SURROGATE_FIRST)
  }

  /** How many bytes of `b` one unescaping step consumes. */
  function StepLength(b: string): (n: nat)
    requires b != "" && StringBody(b)
    ensures 1 <= n <= |b| && StringBody(b[n..])
  {
    if b[0] != '\\' then 1
    else if b[1] != 'u' then 2
    else if PairOpens(b) then
      assert StringBody(b[6..]);
      assert b[6..][6..] == b[12..];
      12
    else 6
  }

  /** What one unescaping step appends. */
  function StepText(b: string): (r: string)
    requires b != "" && StringBody(b)
  {
    if b[0] != '\\' then [b[0]]
    else if b[1] != 'u' then [SimpleChar(b[1])]
    else if PairOpens(b) then Utf8Chars(PairCode(CodeAt(b, 2), CodeAt(b, 8)))
    else Utf8Chars(CodeAt(b, 2))
  }

  function Unescape(b: string): string
    requires StringBody(b)
    decreases |b|
  {
    if b == "" then "" else StepText(b) + Unescape(b[StepLength(b)..])
  }

  /** The bytes a quoted name denotes. */
  function Unescaped(name: string): string
    requires StringText(name)
  {
    Unescape(name[1..|name| - 1])
  }

  lemma {:induction false} CodeShift(body: string, pos: nat, at: nat)
    requires pos <= |body|
    ensures HexQuad(body[pos..], at) <==> HexQuad(body, pos + at)
    ensures HexQuad(body, pos + at) ==> CodeAt(body[pos..], at) == CodeAt(body, pos + at)
  {
    hide HexValue;
  }

  lemma {:induction false} PairMark(body: string, at: nat)
    ensures StartsWith(body, at, "\\u") <==> at + 2 <= |body| && body[at] == '\\' && body[at + 1] == 'u'
  {
    if at + 2 <= |body| {
      assert body[at..at + 2] == [body[at], body[at + 1]];
    }
  }

  lemma {:induction false} PairHasDigits(b: string)
    requires |b| >= 8 && StringBody(b) && b[0] == '\\' && b[1] == 'u' && b[6] == '\\' && b[7] == 'u'
    ensures HexQuad(b, 8)
  {
    assert StringBody(b[6..]);
  }

  /** One step of `Unescape`, in positions of the whole body, as the loop takes it. */
  lemma {:induction false} EscapeAt(body: string, pos: nat)
    requires pos < |body| && StringBody(body[pos..]) && body[pos] == '\\'
    ensures pos + 1 < |body|
    ensures var rest := body[pos..];
      if body[pos + 1] != 'u' then StepLength(rest) == 2 && StepText(rest) == [SimpleChar(body[pos + 1])]
      else
        && HexQuad(body, pos + 2)
        && var code := CodeAt(body, pos + 2);
        && (StartsWith(body, pos + 6, "\\u") ==> HexQuad(body, pos + 8))
        && if HighSurrogate(code) && StartsWith(body, pos + 6, "\\u") && LowSurrogate(CodeAt(body, pos + 8))
           then StepLength(rest) == 12 && StepText(rest) == Utf8Chars(PairCode(code, CodeAt(body, pos + 8)))
           else StepLength(rest) == 6 && StepText(rest) == Utf8Chars(code)
  {
    hide HexValue, Utf8Chars, CodeAt;
    var rest := body[pos..];
    assert rest[0] == body[pos];
    assert |rest| >= 2 && rest[1] == body[pos + 1];
    if rest[1] == 'u' {
      CodeShift(body, pos, 2);
      CodeShift(body, pos, 8);
      PairMark(body, pos + 6);
      if |rest| >= 8 && rest[6] == '\\' && rest[7] == 'u' {
        PairHasDigits(rest);
      }
    }
  }

  lemma {:induction false} PlainAt(body: string, pos: nat)
    requires pos < |body| && StringBody(body[pos..]) && body[pos] != '\\'
    ensures StepLength(body[pos..]) == 1 && StepText(body[pos..]) == [body[pos]]
  {
    assert body[pos..][0] == body[pos];
  }

  lemma {:induction false} UnescapeTurn(body: string, pos: nat)
    requires pos < |body| && StringBody(body[pos..])
    ensures var n := StepLength(body[pos..]);
      && pos + n <= |body| && StringBody(body[pos + n..])
      && Unescape(body[pos..]) == StepText(body[pos..]) + Unescape(body[pos + n..])
  {
    hide StringBody, StepLength, StepText;
    var n := StepLength(body[pos..]);
    assert body[pos..][n..] == body[pos + n..];
  }

  /** The loop of the source. No `\u` ever runs out of digits: that is what `StringText` promised. */
  method UnescapedBytes(quoted: string) returns (out: string)
    requires StringText(quoted)
    ensures out == Unescaped(quoted)
  {
    hide StringBody, Unescape, Utf8Chars, StartsWith, StepLength, StepText, PairOpens, CodeAt, HexQuad, SimpleChar;
    var body := quoted[1..|quoted| - 1];
    out := "";
    var pos := 0;
    assert body[0..] == body;
    while pos < |body|
      invariant pos <= |body| && StringBody(body[pos..])
      invariant Unescape(body) == out + Unescape(body[pos..])
    {
      UnescapeTurn(body, pos);
      if body[pos] != '\\' {
        PlainAt(body, pos);
        out := out + [body[pos]];
        pos := pos + 1;
      } else {
        EscapeAt(body, pos);
        pos := pos + 1;
        var esc := body[pos];
        if esc != 'u' {
          out := out + [SimpleChar(esc)];
        } else {
          var code := CodeAt(body, pos + 1);
          pos := pos + 4;
          var pairAt := pos + 1;
          if HighSurrogate(code) && StartsWith(body, pairAt, "\\u") {
            var low := CodeAt(body, pairAt + 2);
            if LowSurrogate(low) {
              code := PairCode(code, low);
              pos := pairAt + 5;
            }
          }
          out := out + Utf8Chars(code);
        }
        pos := pos + 1;
      }
    }
    UnescapeNothing(body[pos..]);
  }

  lemma {:induction false} UnescapeNothing(b: string)
    requires b == ""
    ensures StringBody(b) && Unescape(b) == ""
  {
  }

  // ----- escaping, the other way -----

  function HexDigit(n: nat): (c: char)
    requires n < 16
    ensures HexValue(c) == n
  {
    if n < 10 then '0' + n as char else 'a' + (n - 10) as char
  }

  function HexEscape(code: nat): (r: string)
    requires code < 0x10000
    ensures |r| == 6
  {
    ['\\', 'u', HexDigit(code / 4096), HexDigit(code / 256 % 16), HexDigit(code / 16 % 16), HexDigit(code % 16)]
  }

  /** The `\u` spelling of a scalar value: one escape, or a surrogate pair. */
  function UnicodeEscape(v: nat): (r: string)
    requires Utf8.IsScalarValue(v)
  {
    if v < 0x10000 then HexEscape(v)
    else HexEscape(SURROGATE_FIRST + (v - 0x10000) / 1024) + HexEscape(LOW_SURROGATE_FIRST + (v - 0x10000) % 1024)
  }

  lemma {:induction false} HexEscapeReads(code: nat, rest: string)
    requires code < 0x10000 && StringBody(rest)
    ensures var b := HexEscape(code) + rest;
      StringBody(b) && b[0] == '\\' && b[1] == 'u' && HexQuad(b, 2) && CodeAt(b, 2) == code && b[6..] == rest
  {
    var b := HexEscape(code) + rest;
    assert b[6..] == rest;
    HexSum(code);
  }

  lemma {:induction false} HexSum(code: nat)
    requires code < 0x10000
    ensures ((code / 4096 * 16 + code / 256 % 16) * 16 + code / 16 % 16) * 16 + code % 16 == code
  {
    assert code / 256 == code / 256 / 16 * 16 + code / 256 % 16 && code / 256 / 16 == code / 4096;
    assert code / 16 == code / 16 / 16 * 16 + code / 16 % 16 && code / 16 / 16 == code / 256;
  }

  /** Whatever follows, the escape of a scalar value unescapes to its UTF-8 bytes. */
  lemma {:induction false} UnicodeEscapeDecodes(v: nat, rest: string)
    requires Utf8.IsScalarValue(v) && StringBody(rest)
    ensures StringBody(UnicodeEscape(v) + rest)
    ensures Unescape(UnicodeEscape(v) + rest) == Utf8Chars(v) + Unescape(rest)
  {
    hide Utf8Chars, CodeAt, StringBody, HexEscape, Unescape;
    if v < 0x10000 {
      HexEscapeReads(v, rest);
      SingleReads(HexEscape(v) + rest, v, rest);
    } else {
      var high, low := SURROGATE_FIRST + (v - 0x10000) / 1024, LOW_SURROGATE_FIRST + (v - 0x10000) % 1024;
      var tail := HexEscape(low) + rest;
      HexEscapeReads(low, rest);
      HexEscapeReads(high, tail);
      assert UnicodeEscape(v) + rest == HexEscape(high) + tail;
      PairReads(HexEscape(high) + tail, high, low, rest);
      assert PairCode(high, low) == v;
    }
  }

  lemma {:induction false} SingleReads(b: string, v: nat, rest: string)
    requires StringBody(b) && StringBody(rest) && |b| >= 6 && b[0] == '\\' && b[1] == 'u' && HexQuad(b, 2) && CodeAt(b, 2) == v
    requires Utf8.IsScalarValue(v) && b[6..] == rest
    ensures Unescape(b) == Utf8Chars(v) + Unescape(rest)
  {
    hide Utf8Chars, CodeAt, HexValue, StringBody;
  }

  lemma {:induction false} PairReads(b: string, high: nat, low: nat, rest: string)
    requires StringBody(b) && StringBody(rest) && |b| >= 12 && b[0] == '\\' && b[1] == 'u' && HexQuad(b, 2) && CodeAt(b, 2) == high
    requires HighSurrogate(high) && LowSurrogate(low)
    requires var t := b[6..]; t[0] == '\\' && t[1] == 'u' && HexQuad(t, 2) && CodeAt(t, 2) == low && t[6..] == rest
    ensures Unescape(b) == Utf8Chars(PairCode(high, low)) + Unescape(rest)
  {
    hide Utf8Chars, HexValue, StringBody;
    CodeShift(b, 6, 2);
    assert b[6..][6..] == b[12..];
  }

  function EscapeChar(c: char): string {
    if c == '"' || c == '\\' then ['\\', c] else if c < ' ' then HexEscape(c as nat) else [c]
  }

  function Escape(s: string): string {
    if s == "" then "" else EscapeChar(s[0]) + Escape(s[1..])
  }

  /** The JSON spelling of a name. */
  function Quote(s: string): string {
    "\"" + Escape(s) + "\""
  }

  lemma {:induction false} ControlEscape(c: char)
    requires c < ' '
    ensures UnicodeEscape(c as nat) == HexEscape(c as nat) && Utf8Chars(c as nat) == [c]
  {
    hide HexEscape;
  }

  lemma {:induction false} EscapeCharDecodes(c: char, rest: string)
    requires StringBody(rest)
    ensures StringBody(EscapeChar(c) + rest)
    ensures Unescape(EscapeChar(c) + rest) == [c] + Unescape(rest)
  {
    var b := EscapeChar(c) + rest;
    if c == '"' || c == '\\' {
      assert b[2..] == rest;
    } else if c < ' ' {
      hide Unescape, StringBody, HexEscape;
      ControlEscape(c);
      UnicodeEscapeDecodes(c as nat, rest);
    } else {
      assert b[1..] == rest;
    }
  }

  lemma {:induction false} UnescapeEscape(s: string)
    ensures StringBody(Escape(s)) && Unescape(Escape(s)) == s
  {
    if s != "" {
      UnescapeEscape(s[1..]);
      EscapeCharDecodes(s[0], Escape(s[1..]));
      assert s == [s[0]] + s[1..];
    }
  }

  /** Every byte string is the key of some name, and escaping never changes which. */
  lemma {:induction false} UnescapedQuote(s: string)
    ensures StringText(Quote(s)) && Unescaped(Quote(s)) == s
  {
    UnescapeEscape(s);
    assert Quote(s)[1..|Quote(s)| - 1] == Escape(s);
  }
}
