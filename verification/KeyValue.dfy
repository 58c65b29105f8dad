/**
 The key=value reader (core/src/strategy/kv.cpp): the pairs a line holds, and the content buffer the
 unclaimed ones are written to. The buffer is sized once, from the line and the number of pairs; no write
 leaves it, because the pairs lie one after the other in the line.
 */
module KeyValue {
  import opened Wrappers
  import opened Text

  predicate IsSpace(c: char) {
    c == ' ' || c == '\t'
  }

  predicate KeyStart(c: char) {
    Digit(c) || 'A' <= c <= 'Z' || 'a' <= c <= 'z' || c == '_'
  }

  predicate KeyChar(c: char) {
    KeyStart(c) || c == '.' || c == '-'
  }

  predicate BareChar(c: char) {
    !IsSpace(c) && c != ',' && c != ';'
  }

  predicate NoQuote(c: char) {
    c != '"'
  }

  /** The byte classes by their codes: a key opens with a letter, a digit or an underscore and runs on over dots and
      dashes; a bare value stops at a space, a tab, a comma or a semicolon. */
  lemma {:induction false} LogfmtBytes(c: char)
    ensures KeyStart(c) <==> Letter(c) || Numeral(c) || c as int == 95
    ensures KeyChar(c) <==> Letter(c) || Numeral(c) || c as int in [95, 46, 45]
    ensures BareChar(c) <==> c as int !in [32, 9, 44, 59]
    ensures NoQuote(c) <==> c as int != 34
  {
  }

  /** A pair by its place in the line: the key, an equals sign, the value inside its quotes if it has any. */
  datatype Pair = Pair(keyStart: nat, keyEnd: nat, valueStart: nat, valueEnd: nat)

  /** Where a value after `=` lies, and where the scan goes on. */
  datatype ValueAt = ValueAt(start: nat, end: nat, next: nat)

  function ValueOf(line: string, pos: nat): (v: ValueAt)
    requires pos <= |line|
    ensures pos <= v.start <= v.end <= v.next <= |line|
  {
    if pos < |line| && line[pos] == '"' then
      var end := RunEnd(line, pos + 1, NoQuote);
      ValueAt(pos + 1, end, if end < |line| then end + 1 else end)
    else
      var end := RunEnd(line, pos, BareChar);
      ValueAt(pos, end, end)
  }

  lemma {:induction false} KeyRunGrows(line: string, pos: nat)
    requires pos < |line| && KeyStart(line[pos])
    ensures RunEnd(line, pos, KeyChar) > pos
  {
  }

  /** `extract_pairs` from a position on; a key without `=` and an empty value give nothing. */
  function Pairs(line: string, pos: nat): seq<Pair>
    requires pos <= |line|
    decreases |line| - pos
  {
    if pos == |line| then []
    else if !KeyStart(line[pos]) then Pairs(line, pos + 1)
    else
      KeyRunGrows(line, pos);
      var keyEnd := RunEnd(line, pos, KeyChar);
      if keyEnd >= |line| || line[keyEnd] != '=' then Pairs(line, keyEnd)
      else
        var v := ValueOf(line, keyEnd + 1);
        if v.end == v.start then Pairs(line, v.next)
        else [Pair(pos, keyEnd, v.start, v.end)] + Pairs(line, v.next)
  }

  /** One turn of the scan. */
  lemma {:induction false} PairsTurn(line: string, pos: nat)
    requires pos < |line|
    ensures !KeyStart(line[pos]) ==> Pairs(line, pos) == Pairs(line, pos + 1)
    ensures KeyStart(line[pos]) ==>
      var keyEnd := RunEnd(line, pos, KeyChar);
      pos < keyEnd &&
      if keyEnd >= |line| || line[keyEnd] != '=' then Pairs(line, pos) == Pairs(line, keyEnd)
      else
        var v := ValueOf(line, keyEnd + 1);
        Pairs(line, pos) == (if v.end == v.start then [] else [Pair(pos, keyEnd, v.start, v.end)]) + Pairs(line, v.next)
  {
    if KeyStart(line[pos]) {
      KeyRunGrows(line, pos);
    }
    hide RunEnd, ValueOf, KeyStart, Every;
  }

  method ReadValue(line: string, pos: nat) returns (v: ValueAt)
    requires pos <= |line|
    ensures v == ValueOf(line, pos)
  {
    if pos < |line| && line[pos] == '"' {
      var end := SkipRun(line, pos + 1, NoQuote);
      return ValueAt(pos + 1, end, if end < |line| then end + 1 else end);
    }
    var end := SkipRun(line, pos, BareChar);
    return ValueAt(pos, end, end);
  }

  /** `extract_pairs`. */
  method ExtractPairs(line: string) returns (pairs: seq<Pair>)
    ensures pairs == Pairs(line, 0)
  {
    hide Every, RunEnd, KeyChar, KeyStart, Pairs, ValueOf;
    pairs := [];
    var pos := 0;
    while pos < |line|
      invariant 0 <= pos <= |line|
      invariant pairs + Pairs(line, pos) == Pairs(line, 0)
      decreases |line| - pos
    {
      PairsTurn(line, pos);
      if !KeyStart(line[pos]) {
        pos := pos + 1;
        continue;
      }
      var keyStart := pos;
      pos := SkipRun(line, pos, KeyChar);
      if pos >= |line| || line[pos] != '=' {
        continue;
      }
      var keyEnd := pos;
      var v := ReadValue(line, pos + 1);
      pos := v.next;
      if v.end == v.start {
        continue;
      }
      pairs := pairs + [Pair(keyStart, keyEnd, v.start, v.end)];
    }
    PairsEnd(line);
    assert pairs + [] == pairs;
  }

  lemma {:induction false} PairsEnd(line: string)
    ensures Pairs(line, |line|) == []
  {
  }

  // ----- where the pairs lie -----

  predicate PairWf(line: string, p: Pair) {
    p.keyStart < p.keyEnd < p.valueStart < p.valueEnd <= |line| && line[p.keyEnd] == '=' &&
    KeyStart(line[p.keyStart]) && Every(KeyChar, line[p.keyStart..p.keyEnd]) &&
    (p.valueStart == p.keyEnd + 1 || (p.valueStart == p.keyEnd + 2 && line[p.keyEnd + 1] == '"'))
  }

  /** One after the other, from `at` on. */
  predicate InOrder(line: string, pairs: seq<Pair>, at: nat) {
    pairs == [] || (at <= pairs[0].keyStart && PairWf(line, pairs[0]) && InOrder(line, pairs[1..], pairs[0].valueEnd))
  }

  lemma {:induction false} InOrderFrom(line: string, pairs: seq<Pair>, at: nat, earlier: nat)
    requires InOrder(line, pairs, at) && earlier <= at
    ensures InOrder(line, pairs, earlier)
  {
  }

  lemma {:induction false} NoneInOrder(line: string, at: nat)
    ensures InOrder(line, [], at)
  {
  }

  lemma {:induction false} InOrderCons(line: string, p: Pair, rest: seq<Pair>, at: nat)
    requires PairWf(line, p) && at <= p.keyStart && InOrder(line, rest, p.valueEnd)
    ensures InOrder(line, [p] + rest, at)
  {
    hide PairWf;
    assert ([p] + rest)[1..] == rest;
  }

  lemma {:induction false} PairIsWf(line: string, pos: nat, keyEnd: nat)
    requires pos < keyEnd < |line| && KeyStart(line[pos]) && keyEnd == RunEnd(line, pos, KeyChar) && line[keyEnd] == '='
    requires var v := ValueOf(line, keyEnd + 1); v.start < v.end
    ensures var v := ValueOf(line, keyEnd + 1); PairWf(line, Pair(pos, keyEnd, v.start, v.end))
  {
    hide Every, RunEnd;
  }

  /** The pairs occupy disjoint increasing ranges of the line, each around an equals sign. */
  lemma {:induction false} PairsInOrder(line: string, pos: nat)
    requires pos <= |line|
    ensures InOrder(line, Pairs(line, pos), pos)
    decreases |line| - pos
  {
    hide Every, RunEnd, InOrder, Pairs, KeyStart, KeyChar, ValueOf;
    if pos == |line| {
      PairsEnd(line);
      NoneInOrder(line, pos);
    } else {
      PairsTurn(line, pos);
      if !KeyStart(line[pos]) {
        PairsInOrder(line, pos + 1);
        InOrderFrom(line, Pairs(line, pos + 1), pos + 1, pos);
      } else {
        KeyRunGrows(line, pos);
        var keyEnd := RunEnd(line, pos, KeyChar);
        if keyEnd >= |line| || line[keyEnd] != '=' {
          PairsInOrder(line, keyEnd);
          InOrderFrom(line, Pairs(line, keyEnd), keyEnd, pos);
        } else {
          var v := ValueOf(line, keyEnd + 1);
          PairsInOrder(line, v.next);
          InOrderFrom(line, Pairs(line, v.next), v.next, if v.end == v.start then pos else v.end);
          if v.end == v.start {
            assert [] + Pairs(line, v.next) == Pairs(line, v.next);
          } else {
            PairIsWf(line, pos, keyEnd);
            InOrderCons(line, Pair(pos, keyEnd, v.start, v.end), Pairs(line, v.next), pos);
          }
        }
      }
    }
  }

  function KeyOf(line: string, p: Pair): string
    requires PairWf(line, p)
  {
    line[p.keyStart..p.keyEnd]
  }

  function ValueText(line: string, p: Pair): string
    requires PairWf(line, p)
  {
    line[p.valueStart..p.valueEnd]
  }

  /** The bytes a pair needs written out: key, equals sign and value. */
  function Width(p: Pair): nat
    requires p.keyStart < p.keyEnd < p.valueStart < p.valueEnd
  {
    p.keyEnd - p.keyStart + 1 + (p.valueEnd - p.valueStart)
  }

  function Widths(line: string, pairs: seq<Pair>, at: nat): nat
    requires InOrder(line, pairs, at)
    decreases |pairs|
  {
    if pairs == [] then 0 else Width(pairs[0]) + Widths(line, pairs[1..], pairs[0].valueEnd)
  }

  /** Written side by side, the pairs fit in the rest of the line. */
  lemma {:induction false} WidthsFit(line: string, pairs: seq<Pair>, at: nat)
    requires InOrder(line, pairs, at) && at <= |line|
    ensures Widths(line, pairs, at) <= |line| - at
    decreases |pairs|
  {
    hide PairWf;
    if pairs != [] {
      PairBounds(line, pairs[0]);
      WidthsFit(line, pairs[1..], pairs[0].valueEnd);
    }
  }

  lemma {:induction false} PairBounds(line: string, p: Pair)
    requires PairWf(line, p)
    ensures p.keyStart < p.keyEnd < p.valueStart < p.valueEnd <= |line|
  {
  }

  // ----- the content -----

  /** Which fields a record has filled; what the value parsers say is a parameter. */
  datatype Fields = Fields(stamped: bool, levelled: bool, component: string)

  datatype Parsers = Parsers(isStamp: string -> bool, isLevel: string -> bool)

  const TIMESTAMP_KEYS := ["ts", "timestamp", "time", "@timestamp"]
  const LEVEL_KEYS := ["level", "severity", "loglevel", "log_level"]
  const COMPONENT_KEYS := ["component", "source", "logger", "service", "module"]
  const MESSAGE_KEYS := ["msg", "message", "log", "text", "body"]

  datatype Claim = TimeClaim | LevelClaim | ComponentClaim | MessageClaim | ContentClaim

  /** Who takes a key: each field only while it is unfilled, then the message, then the content. */
  function ClaimOf(f: Fields, key: string): Claim {
    if !f.stamped && key in TIMESTAMP_KEYS then TimeClaim
    else if !f.levelled && key in LEVEL_KEYS then LevelClaim
    else if f.component == "" && key in COMPONENT_KEYS then ComponentClaim
    else if key in MESSAGE_KEYS then MessageClaim
    else ContentClaim
  }

  function Filled(ps: Parsers, f: Fields, key: string, value: string): Fields {
    match ClaimOf(f, key)
    case TimeClaim => f.(stamped := ps.isStamp(value))
    case LevelClaim => f.(levelled := ps.isLevel(value))
    case ComponentClaim => f.(component := value)
    case _ => f
  }

  /** What a pair adds to the content: a message its value, and only as the first; any other unclaimed pair
      itself, after a space unless first. */
  function Added(f: Fields, empty: bool, key: string, value: string): string {
    match ClaimOf(f, key)
    case MessageClaim => if empty then value else ""
    case ContentClaim => (if empty then "" else " ") + key + "=" + value
    case _ => ""
  }

  /** The content of the pairs from a state on, where `empty` says nothing was written before. */
  function ContentOf(ps: Parsers, line: string, pairs: seq<Pair>, at: nat, f: Fields, empty: bool): string
    requires InOrder(line, pairs, at)
    decreases |pairs|
  {
    if pairs == [] then ""
    else
      var key, value := KeyOf(line, pairs[0]), ValueText(line, pairs[0]);
      var added := Added(f, empty, key, value);
      added + ContentOf(ps, line, pairs[1..], pairs[0].valueEnd, Filled(ps, f, key, value), empty && added == "")
  }

  lemma {:induction false} AddedFits(f: Fields, empty: bool, key: string, value: string)
    ensures |Added(f, empty, key, value)| <= |key| + 1 + |value| + (if empty then 0 else 1)
  {
  }

  /** The content is at most the line and one separator for each pair after the first. */
  lemma {:induction false} ContentFits(ps: Parsers, line: string, pairs: seq<Pair>, at: nat, f: Fields, empty: bool)
    requires InOrder(line, pairs, at)
    ensures |ContentOf(ps, line, pairs, at, f, empty)| <=
            Widths(line, pairs, at) + |pairs| - (if empty && pairs != [] then 1 else 0)
    decreases |pairs|
  {
    hide PairWf, Added, Filled;
    if pairs != [] {
      PairBounds(line, pairs[0]);
      var key, value := KeyOf(line, pairs[0]), ValueText(line, pairs[0]);
      AddedFits(f, empty, key, value);
      ContentFits(ps, line, pairs[1..], pairs[0].valueEnd, Filled(ps, f, key, value), empty && Added(f, empty, key, value) == "");
    }
  }

  const UNFILLED := Fields(false, false, "")

  /** The content of a line never needs more than its length and its number of pairs less one. */
  lemma {:induction false} ContentBound(ps: Parsers, line: string)
    requires Pairs(line, 0) != []
    ensures InOrder(line, Pairs(line, 0), 0)
    ensures |ContentOf(ps, line, Pairs(line, 0), 0, UNFILLED, true)| <= |line| + |Pairs(line, 0)| - 1
  {
    PairsInOrder(line, 0);
    WidthsFit(line, Pairs(line, 0), 0);
    ContentFits(ps, line, Pairs(line, 0), 0, UNFILLED, true);
  }

  // ----- the buffer -----

  /** `memcpy` into the buffer. */
  method CopyInto(buffer: array<char>, at: nat, text: string) returns (next: nat)
    requires at + |text| <= buffer.Length
    modifies buffer
    ensures next == at + |text|
    ensures buffer[..next] == old(buffer[..at]) + text
  {
    for i := 0 to |text|
      invariant buffer[..at + i] == old(buffer[..at]) + text[..i]
    {
      buffer[at + i] := text[i];
      assert text[..i + 1] == text[..i] + [text[i]];
    }
    assert text[..|text|] == text;
    next := at + |text|;
  }

  /** What one pair writes. */
  method WritePair(buffer: array<char>, writePos: nat, first: bool, f: Fields, key: string, value: string)
    returns (next: nat, stillFirst: bool)
    requires writePos + |Added(f, first, key, value)| <= buffer.Length && value != ""
    modifies buffer
    ensures next == writePos + |Added(f, first, key, value)|
    ensures buffer[..next] == old(buffer[..writePos]) + Added(f, first, key, value)
    ensures stillFirst == (first && Added(f, first, key, value) == "")
  {
    next, stillFirst := writePos, first;
    if ClaimOf(f, key).MessageClaim? {
      if first {
        next := CopyInto(buffer, next, value);
        stillFirst := false;
      }
    } else if ClaimOf(f, key).ContentClaim? {
      ghost var before := buffer[..writePos];
      if !first {
        next := CopyInto(buffer, next, " ");
      }
      ghost var lead := if first then "" else " ";
      assert buffer[..next] == before + lead;
      next := CopyInto(buffer, next, key);
      next := CopyInto(buffer, next, "=");
      next := CopyInto(buffer, next, value);
      stillFirst := false;
      Grouped(before, lead, key, "=", value);
    }
  }

  lemma {:induction false} Grouped(a: string, b: string, c: string, d: string, e: string)
    ensures a + b + c + d + e == a + (b + c + d + e)
  {
  }

  /** The record `parse` builds: the fields filled and the content. */
  datatype Record = Record(fields: Fields, content: string)

  function FieldsOf(ps: Parsers, line: string, pairs: seq<Pair>, at: nat, f: Fields): Fields
    requires InOrder(line, pairs, at)
    decreases |pairs|
  {
    if pairs == [] then f
    else FieldsOf(ps, line, pairs[1..], pairs[0].valueEnd, Filled(ps, f, KeyOf(line, pairs[0]), ValueText(line, pairs[0])))
  }

  /** `parse`: absent without pairs; otherwise the content buffer holds the unclaimed pairs, every write inside
      it, and an empty content falls back to the whole line. */
  method Parse(ps: Parsers, line: string) returns (record: Option<Record>)
    ensures Pairs(line, 0) == [] <==> record == None
    ensures record.Some? ==>
      InOrder(line, Pairs(line, 0), 0) &&
      var content := ContentOf(ps, line, Pairs(line, 0), 0, UNFILLED, true);
      record.value == Record(FieldsOf(ps, line, Pairs(line, 0), 0, UNFILLED), if content == "" then line else content)
    ensures record.Some? ==>
      var kvs := Texts(line, Pairs(line, 0), 0);
      var content, fields := SpaceJoined(Parts(ps, kvs, |kvs|)), record.value.fields;
      && record.value.content == (if content == "" then line else content)
      && (fields.stamped <==> StampedBy(ps, kvs, |kvs|)) && (fields.levelled <==> LevelledBy(ps, kvs, |kvs|))
      && ComponentBy(kvs, |kvs|, fields.component)
  {
    hide Pairs, PairWf, Filled, Added, ClaimOf, InOrder, Texts, Parts, SpaceJoined, StampedBy, LevelledBy, ComponentBy;
    RecordIs(ps, line);
    var pairs := ExtractPairs(line);
    if pairs == [] {
      return None;
    }
    PairsInOrder(line, 0);
    ContentBound(ps, line);
    var buffer := new char[|line| + |pairs| + 1];
    var written, fields := WriteAll(ps, line, pairs, buffer);
    var content := if written == 0 then line else buffer[..written];
    return Some(Record(fields, content));
  }

  /** The pair loop of `parse`. */
  method WriteAll(ps: Parsers, line: string, pairs: seq<Pair>, buffer: array<char>) returns (written: nat, fields: Fields)
    requires InOrder(line, pairs, 0) && |ContentOf(ps, line, pairs, 0, UNFILLED, true)| <= buffer.Length
    modifies buffer
    ensures written <= buffer.Length && buffer[..written] == ContentOf(ps, line, pairs, 0, UNFILLED, true)
    ensures fields == FieldsOf(ps, line, pairs, 0, UNFILLED)
  {
    hide PairWf, Filled, Added, ClaimOf, InOrder;
    fields := UNFILLED;
    written := 0;
    var first, i := true, 0;
    ghost var at := 0;
    ghost var whole := ContentOf(ps, line, pairs, 0, UNFILLED, true);
    assert buffer[..0] + whole == whole && pairs[0..] == pairs;
    while i < |pairs|
      invariant 0 <= i <= |pairs| && written <= buffer.Length
      invariant InOrder(line, pairs[i..], at)
      invariant buffer[..written] + ContentOf(ps, line, pairs[i..], at, fields, first) == whole
      invariant FieldsOf(ps, line, pairs[i..], at, fields) == FieldsOf(ps, line, pairs, 0, UNFILLED)
    {
      assert pairs[i..][0] == pairs[i] && pairs[i..][1..] == pairs[i + 1..];
      HeadPair(line, pairs[i..], at);
      var key, value := KeyOf(line, pairs[i]), ValueText(line, pairs[i]);
      ghost var rest := ContentOf(ps, line, pairs[i + 1..], pairs[i].valueEnd, Filled(ps, fields, key, value),
                                  first && Added(fields, first, key, value) == "");
      Associative(buffer[..written], Added(fields, first, key, value), rest);
      written, first := WritePair(buffer, written, first, fields, key, value);
      fields := Filled(ps, fields, key, value);
      at := pairs[i].valueEnd;
      i := i + 1;
    }
    assert buffer[..written] + "" == buffer[..written];
  }

  lemma {:induction false} HeadPair(line: string, pairs: seq<Pair>, at: nat)
    requires InOrder(line, pairs, at) && pairs != []
    ensures PairWf(line, pairs[0]) && InOrder(line, pairs[1..], pairs[0].valueEnd)
    ensures pairs[0].valueStart < pairs[0].valueEnd <= |line|
  {
  }

  lemma {:induction false} Associative(a: string, b: string, c: string)
    ensures (a + b) + c == a + (b + c)
  {
  }

  // ----- printed pairs are found -----

  /** A pair as written: what stands before it, its key, its value and whether that is quoted. */
  datatype Logfmt = Logfmt(before: string, key: string, value: string, quoted: bool)

  predicate NotKeyStart(c: char) {
    !KeyStart(c)
  }

  predicate LogfmtWf(p: Logfmt) {
    && Every(NotKeyStart, p.before) && p.key != "" && KeyStart(p.key[0]) && Every(KeyChar, p.key) && p.value != ""
    && if p.quoted then Every(NoQuote, p.value) else Every(BareChar, p.value) && p.value[0] != '"'
  }

  function QuotedText(p: Logfmt): string {
    if p.quoted then ['"'] + (p.value + ['"']) else p.value
  }

  function Printed(ps: seq<Logfmt>, tail: string): string {
    if ps == [] then tail else ps[0].before + (ps[0].key + (['='] + (QuotedText(ps[0]) + Printed(ps[1..], tail))))
  }

  /** What follows a bare value must end it. */
  predicate Stops(text: string) {
    text == "" || !BareChar(text[0])
  }

  predicate PrintedWf(ps: seq<Logfmt>, tail: string)
    decreases |ps|
  {
    if ps == [] then Every(NotKeyStart, tail)
    else LogfmtWf(ps[0]) && (!ps[0].quoted ==> Stops(Printed(ps[1..], tail))) && PrintedWf(ps[1..], tail)
  }

  /** The keys and values of pairs, as texts. */
  function Texts(line: string, pairs: seq<Pair>, at: nat): seq<(string, string)>
    requires InOrder(line, pairs, at)
    decreases |pairs|
  {
    if pairs == [] then [] else [(KeyOf(line, pairs[0]), ValueText(line, pairs[0]))] + Texts(line, pairs[1..], pairs[0].valueEnd)
  }

  function Spelled(ps: seq<Logfmt>): seq<(string, string)> {
    if ps == [] then [] else [(ps[0].key, ps[0].value)] + Spelled(ps[1..])
  }

  lemma {:induction false} SkipBefore(line: string, pos: nat, text: string)
    requires At(line, pos, text) && Every(NotKeyStart, text)
    ensures pos + |text| <= |line| && Pairs(line, pos) == Pairs(line, pos + |text|)
    decreases |text|
  {
    hide At, KeyStart, RunEnd;
    AtIsSlice(line, pos, text);
    if text != "" {
      AtByte(line, pos, text, 0);
      AtConcat(line, pos, [text[0]], text[1..]);
      assert text == [text[0]] + text[1..];
      SkipBefore(line, pos + 1, text[1..]);
    }
  }

  lemma {:induction false} ValueFound(line: string, pos: nat, p: Logfmt)
    requires LogfmtWf(p) && At(line, pos, QuotedText(p))
    requires !p.quoted && pos + |QuotedText(p)| < |line| ==> !BareChar(line[pos + |QuotedText(p)|])
    ensures pos <= |line| && var v := ValueOf(line, pos);
      v.next == pos + |QuotedText(p)| && v.end == v.start + |p.value| && line[v.start..v.end] == p.value
  {
    hide KeyStart, KeyChar, BareChar, At, Every, RunEnd;
    AtByte(line, pos, QuotedText(p), 0);
    if p.quoted {
      AtConcat(line, pos, ['"'], p.value + ['"']);
      AtConcat(line, pos + 1, p.value, ['"']);
      AtByte(line, pos + 1 + |p.value|, ['"'], 0);
      RunExact(line, pos + 1, NoQuote, p.value);
      AtIsSlice(line, pos + 1, p.value);
    } else {
      RunExact(line, pos, BareChar, p.value);
      AtIsSlice(line, pos, p.value);
    }
  }

  /** The first printed pair in its place. */
  lemma {:induction false} PrintedHead(line: string, pos: nat, ps: seq<Logfmt>, tail: string)
    requires ps != [] && PrintedWf(ps, tail) && At(line, pos, Printed(ps, tail)) && pos + |Printed(ps, tail)| == |line|
    ensures var keyAt := pos + |ps[0].before|; var equals := keyAt + |ps[0].key|; var next := equals + 1 + |QuotedText(ps[0])|;
      && At(line, pos, ps[0].before) && At(line, keyAt, ps[0].key) && equals < |line| && line[equals] == '='
      && At(line, equals + 1, QuotedText(ps[0])) && At(line, next, Printed(ps[1..], tail))
      && next + |Printed(ps[1..], tail)| == |line|
      && (!ps[0].quoted && next < |line| ==> !BareChar(line[next]))
  {
    hide At, Every, BareChar, LogfmtWf, QuotedText;
    var p, rest := ps[0], Printed(ps[1..], tail);
    var keyAt := pos + |p.before|;
    var equals := keyAt + |p.key|;
    var next := equals + 1 + |QuotedText(p)|;
    AtConcat(line, pos, p.before, p.key + (['='] + (QuotedText(p) + rest)));
    AtConcat(line, keyAt, p.key, ['='] + (QuotedText(p) + rest));
    AtConcat(line, equals, ['='], QuotedText(p) + rest);
    AtConcat(line, equals + 1, QuotedText(p), rest);
    AtByte(line, equals, ['='], 0);
    if rest != "" {
      AtByte(line, next, rest, 0);
    }
  }

  lemma {:induction false} KeyFound(line: string, keyAt: nat, p: Logfmt)
    requires LogfmtWf(p) && At(line, keyAt, p.key) && keyAt + |p.key| < |line| && line[keyAt + |p.key|] == '='
    ensures KeyStart(line[keyAt]) && RunEnd(line, keyAt, KeyChar) == keyAt + |p.key| && line[keyAt..keyAt + |p.key|] == p.key
  {
    hide Every, KeyStart;
    LogfmtParts(p);
    AtByte(line, keyAt, p.key, 0);
    RunExact(line, keyAt, KeyChar, p.key);
    AtIsSlice(line, keyAt, p.key);
  }

  /** Every printed list of pairs is extracted as it was printed. */
  lemma {:induction false} PrintedFound(line: string, pos: nat, ps: seq<Logfmt>, tail: string)
    requires PrintedWf(ps, tail) && At(line, pos, Printed(ps, tail)) && pos + |Printed(ps, tail)| == |line|
    ensures pos <= |line| && InOrder(line, Pairs(line, pos), pos) && Texts(line, Pairs(line, pos), pos) == Spelled(ps)
    decreases |ps|
  {
    hide At, Every, KeyChar, KeyStart, BareChar, LogfmtWf, PairWf, InOrder, Stops, Pairs, Texts, RunEnd, ValueOf, QuotedText;
    AtIsSlice(line, pos, Printed(ps, tail));
    if ps == [] {
      SkipBefore(line, pos, tail);
      NoPairsLeft(line);
      PairsInOrder(line, pos);
    } else {
      var p := ps[0];
      var keyAt := pos + |p.before|;
      var equals := keyAt + |p.key|;
      PrintedHead(line, pos, ps, tail);
      LogfmtParts(p);
      SkipBefore(line, pos, p.before);
      KeyFound(line, keyAt, p);
      ValueFound(line, equals + 1, p);
      PrintedFound(line, equals + 1 + |QuotedText(p)|, ps[1..], tail);
      FoundPair(line, pos, keyAt, equals);
    }
  }

  lemma {:induction false} NoPairsLeft(line: string)
    ensures Pairs(line, |line|) == [] && InOrder(line, [], |line|)
    ensures forall at: nat :: InOrder(line, [], at) && Texts(line, [], at) == []
  {
  }

  lemma {:induction false} LogfmtParts(p: Logfmt)
    requires LogfmtWf(p)
    ensures Every(NotKeyStart, p.before) && p.key != "" && KeyStart(p.key[0]) && Every(KeyChar, p.key) && p.value != ""
    ensures !KeyChar('=')
  {
  }

  /** The first pair found, and the rest from past its value. */
  lemma {:induction false} FoundPair(line: string, pos: nat, keyAt: nat, equals: nat)
    requires pos <= keyAt < equals < |line| && Pairs(line, pos) == Pairs(line, keyAt) && KeyStart(line[keyAt])
    requires RunEnd(line, keyAt, KeyChar) == equals && line[equals] == '='
    requires ValueOf(line, equals + 1).end > ValueOf(line, equals + 1).start
    ensures var v := ValueOf(line, equals + 1);
      && InOrder(line, Pairs(line, pos), pos) && InOrder(line, Pairs(line, v.next), v.next)
      && Texts(line, Pairs(line, pos), pos) ==
         [(line[keyAt..equals], line[v.start..v.end])] + Texts(line, Pairs(line, v.next), v.next)
  {
    hide RunEnd, Every, KeyStart;
    var v := ValueOf(line, equals + 1);
    PairsInOrder(line, pos);
    PairsInOrder(line, v.next);
    InOrderFrom(line, Pairs(line, v.next), v.next, v.end);
    TextsFrom(line, Pairs(line, v.next), v.next, v.end);
    assert Pairs(line, pos) == [Pair(keyAt, equals, v.start, v.end)] + Pairs(line, v.next);
    assert Pairs(line, pos)[1..] == Pairs(line, v.next);
  }

  lemma {:induction false} TextsFrom(line: string, pairs: seq<Pair>, at: nat, earlier: nat)
    requires InOrder(line, pairs, at) && InOrder(line, pairs, earlier)
    ensures Texts(line, pairs, at) == Texts(line, pairs, earlier)
  {
  }

  // ----- what a record holds, position by position -----

  predicate TimeKey(key: string) {
    key in {"ts", "timestamp", "time", "@timestamp"}
  }

  predicate LevelKey(key: string) {
    key in {"level", "severity", "loglevel", "log_level"}
  }

  predicate ComponentKey(key: string) {
    key in {"component", "source", "logger", "service", "module"}
  }

  predicate MessageKey(key: string) {
    key in {"msg", "message", "log", "text", "body"}
  }

  /** Some pair before `n` stamps the record. */
  ghost predicate StampedBy(ps: Parsers, kvs: seq<(string, string)>, n: nat)
    requires n <= |kvs|
  {
    exists j :: 0 <= j < n && TimeKey(kvs[j].0) && ps.isStamp(kvs[j].1)
  }

  ghost predicate LevelledBy(ps: Parsers, kvs: seq<(string, string)>, n: nat)
    requires n <= |kvs|
  {
    exists j :: 0 <= j < n && LevelKey(kvs[j].0) && ps.isLevel(kvs[j].1)
  }

  /** The value of the first component key, if there is one. */
  ghost predicate ComponentBy(kvs: seq<(string, string)>, n: nat, component: string)
    requires n <= |kvs|
  {
    (component == "" && forall j :: 0 <= j < n ==> !ComponentKey(kvs[j].0)) ||
    (exists j :: 0 <= j < n && ComponentKey(kvs[j].0) && kvs[j].1 == component && forall k :: 0 <= k < j ==> !ComponentKey(kvs[k].0))
  }

  ghost predicate AnyComponent(kvs: seq<(string, string)>, n: nat)
    requires n <= |kvs|
  {
    exists j :: 0 <= j < n && ComponentKey(kvs[j].0)
  }

  /** A field takes pair `i`: its key names the field, and no earlier pair has filled it. */
  ghost predicate Taken(ps: Parsers, kvs: seq<(string, string)>, i: nat)
    requires i < |kvs|
  {
    (TimeKey(kvs[i].0) && !StampedBy(ps, kvs, i)) || (LevelKey(kvs[i].0) && !LevelledBy(ps, kvs, i)) ||
    (ComponentKey(kvs[i].0) && !AnyComponent(kvs, i))
  }

  /** What the first `n` pairs leave in the content, part by part: of the pairs no field takes a message key
      leaves its value alone and only as the first part, any other key itself with its value. */
  ghost function Parts(ps: Parsers, kvs: seq<(string, string)>, n: nat): seq<string>
    requires n <= |kvs|
  {
    if n == 0 then []
    else
      var before, (key, value) := Parts(ps, kvs, n - 1), kvs[n - 1];
      if Taken(ps, kvs, n - 1) || (MessageKey(key) && before != []) then before
      else before + [if MessageKey(key) then value else key + "=" + value]
  }

  function SpaceJoined(parts: seq<string>): string {
    if parts == [] then ""
    else if |parts| == 1 then parts[0]
    else SpaceJoined(parts[..|parts| - 1]) + " " + parts[|parts| - 1]
  }

  ghost predicate Reached(ps: Parsers, kvs: seq<(string, string)>, n: nat, f: Fields)
    requires n <= |kvs|
  {
    && (f.stamped <==> StampedBy(ps, kvs, n)) && (f.levelled <==> LevelledBy(ps, kvs, n))
    && (f.component == "" <==> !AnyComponent(kvs, n)) && ComponentBy(kvs, n, f.component)
  }

  lemma {:induction false} ReachedStep(ps: Parsers, kvs: seq<(string, string)>, n: nat, f: Fields)
    requires n < |kvs| && Reached(ps, kvs, n, f) && kvs[n].1 != ""
    ensures Reached(ps, kvs, n + 1, Filled(ps, f, kvs[n].0, kvs[n].1))
    ensures Taken(ps, kvs, n) <==> !ClaimOf(f, kvs[n].0).MessageClaim? && !ClaimOf(f, kvs[n].0).ContentClaim?
    ensures ClaimOf(f, kvs[n].0).MessageClaim? ==> MessageKey(kvs[n].0)
    ensures ClaimOf(f, kvs[n].0).ContentClaim? ==> !MessageKey(kvs[n].0)
  {
    KeysApart(kvs[n].0);
    ClaimIs(f, kvs[n].0);
    hide ClaimOf, TimeKey, LevelKey, ComponentKey, MessageKey;
    var key, value := kvs[n].0, kvs[n].1;
    assert StampedBy(ps, kvs, n + 1) <==> StampedBy(ps, kvs, n) || (TimeKey(key) && ps.isStamp(value));
    assert LevelledBy(ps, kvs, n + 1) <==> LevelledBy(ps, kvs, n) || (LevelKey(key) && ps.isLevel(value));
    assert AnyComponent(kvs, n + 1) <==> AnyComponent(kvs, n) || ComponentKey(key);
  }

  lemma {:induction false} KeysApart(key: string)
    ensures !(TimeKey(key) && (LevelKey(key) || ComponentKey(key) || MessageKey(key)))
    ensures !(LevelKey(key) && (ComponentKey(key) || MessageKey(key))) && !(ComponentKey(key) && MessageKey(key))
  {
  }

  lemma {:induction false} ClaimIs(f: Fields, key: string)
    ensures ClaimOf(f, key) ==
      if !f.stamped && TimeKey(key) then TimeClaim
      else if !f.levelled && LevelKey(key) then LevelClaim
      else if f.component == "" && ComponentKey(key) then ComponentClaim
      else if MessageKey(key) then MessageClaim else ContentClaim
  {
  }

  lemma {:induction false} PartsStep(ps: Parsers, kvs: seq<(string, string)>, n: nat, f: Fields)
    requires n < |kvs| && Reached(ps, kvs, n, f) && kvs[n].1 != ""
    ensures var added := Added(f, Parts(ps, kvs, n) == [], kvs[n].0, kvs[n].1);
      && SpaceJoined(Parts(ps, kvs, n)) + added == SpaceJoined(Parts(ps, kvs, n + 1))
      && (Parts(ps, kvs, n + 1) == [] <==> Parts(ps, kvs, n) == [] && added == "")
  {
    hide Taken, Reached, ClaimOf, MessageKey;
    ReachedStep(ps, kvs, n, f);
    var before, key, value := Parts(ps, kvs, n), kvs[n].0, kvs[n].1;
    JoinsOne(before, value);
    JoinsOne(before, key + "=" + value);
    assert SpaceJoined(before) + "" == SpaceJoined(before);
  }

  lemma {:induction false} JoinsOne(parts: seq<string>, part: string)
    ensures SpaceJoined(parts + [part]) == SpaceJoined(parts) + ((if parts == [] then "" else " ") + part)
  {
    if parts == [] {
      assert [] + [part] == [part];
    } else {
      assert (parts + [part])[..|parts|] == parts;
    }
  }

  lemma {:induction false} ContentFrom(ps: Parsers, line: string, pairs: seq<Pair>, at: nat, f: Fields, kvs: seq<(string, string)>, n: nat)
    requires InOrder(line, pairs, at) && n <= |kvs| && Texts(line, pairs, at) == kvs[n..] && Reached(ps, kvs, n, f)
    ensures SpaceJoined(Parts(ps, kvs, n)) + ContentOf(ps, line, pairs, at, f, Parts(ps, kvs, n) == []) == SpaceJoined(Parts(ps, kvs, |kvs|))
    ensures Reached(ps, kvs, |kvs|, FieldsOf(ps, line, pairs, at, f))
    decreases |pairs|
  {
    hide Reached, PairWf, Filled, Added, Parts, SpaceJoined, ClaimOf;
    if pairs == [] {
      assert n == |kvs|;
      assert SpaceJoined(Parts(ps, kvs, n)) + "" == SpaceJoined(Parts(ps, kvs, n));
    } else {
      HeadPair(line, pairs, at);
      var key, value := KeyOf(line, pairs[0]), ValueText(line, pairs[0]);
      assert kvs[n] == kvs[n..][0] == (key, value) && kvs[n + 1..] == kvs[n..][1..];
      assert value != "";
      ReachedStep(ps, kvs, n, f);
      PartsStep(ps, kvs, n, f);
      ContentFrom(ps, line, pairs[1..], pairs[0].valueEnd, Filled(ps, f, key, value), kvs, n + 1);
      Associative(SpaceJoined(Parts(ps, kvs, n)), Added(f, Parts(ps, kvs, n) == [], key, value),
        ContentOf(ps, line, pairs[1..], pairs[0].valueEnd, Filled(ps, f, key, value), Parts(ps, kvs, n + 1) == []));
    }
  }

  /** The record of a line, from its pairs' texts alone: each field from the pairs that name it, the content the
      parts of the others. */
  lemma {:induction false} RecordIs(ps: Parsers, line: string)
    ensures InOrder(line, Pairs(line, 0), 0)
    ensures var pairs, kvs := Pairs(line, 0), Texts(line, Pairs(line, 0), 0);
      && ContentOf(ps, line, pairs, 0, UNFILLED, true) == SpaceJoined(Parts(ps, kvs, |kvs|))
      && var fields := FieldsOf(ps, line, pairs, 0, UNFILLED);
      && (fields.stamped <==> StampedBy(ps, kvs, |kvs|)) && (fields.levelled <==> LevelledBy(ps, kvs, |kvs|))
      && ComponentBy(kvs, |kvs|, fields.component)
  {
    hide ContentOf, FieldsOf, Pairs, Texts, StampedBy, LevelledBy, SpaceJoined;
    PairsInOrder(line, 0);
    var kvs := Texts(line, Pairs(line, 0), 0);
    assert kvs[0..] == kvs;
    NothingReached(ps, kvs);
    ContentFrom(ps, line, Pairs(line, 0), 0, UNFILLED, kvs, 0);
    assert "" + ContentOf(ps, line, Pairs(line, 0), 0, UNFILLED, true) == ContentOf(ps, line, Pairs(line, 0), 0, UNFILLED, true);
  }

  lemma {:induction false} NothingReached(ps: Parsers, kvs: seq<(string, string)>)
    ensures Reached(ps, kvs, 0, UNFILLED) && Parts(ps, kvs, 0) == [] && SpaceJoined([]) == ""
  {
  }
}
