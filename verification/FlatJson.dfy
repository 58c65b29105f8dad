/**
 The flat JSON reader (core/src/strategy/simdjson_scratch.hpp): one pass over an escape-free object of
 scalars, reporting each member. It is proved to invert a printer, in both directions, and the members it
 reports are exactly the members printed.
 */
module FlatJson {
  import opened Wrappers
  import opened Text

  datatype ScalarKind = StringScalar | NumberScalar | LiteralScalar
  datatype Scalar = Scalar(kind: ScalarKind, text: string)
  datatype Member = Member(key: string, scalar: Scalar)

  // ----- runs -----

  predicate InlineBlank(c: char) {
    c == ' ' || c == '\t'
  }

  predicate Whitespace(c: char) {
    c == ' ' || c == '\t' || c == '\r' || c == '\n'
  }

  /** What may stand between members: the reader skips whitespace and passes commas one at a time. */
  predicate Separator(c: char) {
    Whitespace(c) || c == ','
  }

  predicate NumberChar(c: char) {
    Digit(c) || c == '-' || c == '+' || c == '.' || c == 'e' || c == 'E'
  }

  predicate Lower(c: char) {
    'a' <= c <= 'z'
  }

  /** Neither the quote that ends a string nor the escape the reader declines. */
  predicate Plain(c: char) {
    c != '"' && c != '\\'
  }

  // ----- the grammar -----

  /** The byte classes by their codes. */
  lemma {:induction false} FlatBytes(c: char)
    ensures InlineBlank(c) <==> c as int in [32, 9]
    ensures Separator(c) <==> c as int in [32, 9, 13, 10, 44]
    ensures Whitespace(c) <==> c as int in [32, 9, 13, 10]
    ensures NumberChar(c) <==> Numeral(c) || c as int in [45, 43, 46, 101, 69]
    ensures Lower(c) <==> Letter(c) && c as int > 90
    ensures Plain(c) <==> c as int !in [34, 92]
  {
  }

  predicate ScalarWf(s: Scalar) {
    match s.kind
    case StringScalar => Every(Plain, s.text)
    case NumberScalar => s.text != "" && (Digit(s.text[0]) || s.text[0] == '-') && Every(NumberChar, s.text)
    case LiteralScalar => s.text != "" && s.text[0] in "tfn" && Every(Lower, s.text)
  }

  function ScalarText(s: Scalar): (t: string) {
    if s.kind.StringScalar? then ['"'] + (s.text + ['"']) else s.text
  }

  /** One member as written: separators before it, its key, blanks around the colon, its value. */
  datatype Written = Written(before: string, key: string, afterKey: string, afterColon: string, scalar: Scalar)

  predicate WrittenWf(w: Written) {
    Every(Separator, w.before) && Every(Plain, w.key) && Every(InlineBlank, w.afterKey) && Every(InlineBlank, w.afterColon) &&
    ScalarWf(w.scalar)
  }

  function MemberText(w: Written): string {
    ['"'] + (w.key + (['"'] + (w.afterKey + ([':'] + (w.afterColon + ScalarText(w.scalar))))))
  }

  function MemberOf(w: Written): Member {
    Member(w.key, w.scalar)
  }

  function MembersOf(ws: seq<Written>): seq<Member> {
    if ws == [] then [] else [MemberOf(ws[0])] + MembersOf(ws[1..])
  }

  /** The members, then separators, the closing brace, and whatever follows it. */
  function BodyText(ws: seq<Written>, tail: string, rest: string): string {
    if ws == [] then tail + (['}'] + rest) else ws[0].before + (MemberText(ws[0]) + BodyText(ws[1..], tail, rest))
  }

  function ObjectText(lead: string, ws: seq<Written>, tail: string, rest: string): string {
    lead + (['{'] + BodyText(ws, tail, rest))
  }

  predicate ObjectWf(lead: string, ws: seq<Written>, tail: string) {
    Every(InlineBlank, lead) && Every(Separator, tail) && forall i :: 0 <= i < |ws| ==> WrittenWf(ws[i])
  }

  // ----- the reader -----

  /** The end of a string whose opening quote is at `pos`, past its closing quote. */
  function StringEnd(line: string, pos: nat): (e: Option<nat>)
    requires pos <= |line|
    ensures e.Some? ==> pos + 2 <= e.value <= |line|
  {
    if pos >= |line| || line[pos] != '"' then None
    else
      var end := RunEnd(line, pos + 1, Plain);
      if end < |line| && line[end] == '"' then Some(end + 1) else None
  }

  function ValueAt(line: string, pos: nat): (v: Option<(Scalar, nat)>)
    requires pos < |line|
    ensures v.Some? ==> pos < v.value.1 <= |line|
  {
    var c := line[pos];
    if c == '"' then
      var end :- StringEnd(line, pos);
      Some((Scalar(StringScalar, line[pos + 1..end - 1]), end))
    else if Digit(c) || c == '-' then
      var end := RunEnd(line, pos, NumberChar);
      Some((Scalar(NumberScalar, line[pos..end]), end))
    else if c == 't' || c == 'f' || c == 'n' then
      var end := RunEnd(line, pos, Lower);
      Some((Scalar(LiteralScalar, line[pos..end]), end))
    else None
  }

  function KeyValueAt(line: string, pos: nat): (m: Option<(Member, nat)>)
    requires pos < |line|
    ensures m.Some? ==> pos < m.value.1 <= |line|
  {
    var keyEnd :- StringEnd(line, pos);
    var colon := RunEnd(line, keyEnd, InlineBlank);
    if colon >= |line| || line[colon] != ':' then None
    else
      var valueAt := RunEnd(line, colon + 1, InlineBlank);
      if valueAt >= |line| then None
      else
        var (scalar, end) :- ValueAt(line, valueAt);
        Some((Member(line[pos + 1..keyEnd - 1], scalar), end))
  }

  /** The members of a flat object from `pos` on; absent when the reader aborts. */
  function BodyAt(line: string, pos: nat): Option<seq<Member>>
    requires pos <= |line|
    decreases |line| - pos
  {
    var at := RunEnd(line, pos, Whitespace);
    if at >= |line| then None
    else if line[at] == '}' then Some([])
    else if line[at] == ',' then BodyAt(line, at + 1)
    else
      var (member, next) :- KeyValueAt(line, at);
      var rest :- BodyAt(line, next);
      Some([member] + rest)
  }

  function FlatObject(line: string): Option<seq<Member>> {
    var open := RunEnd(line, 0, InlineBlank);
    if open >= |line| || line[open] != '{' then None else BodyAt(line, open + 1)
  }

  // ----- what is printed is read -----

  lemma {:induction false} StringRead(line: string, pos: nat, text: string)
    requires At(line, pos, ['"'] + (text + ['"'])) && Every(Plain, text)
    ensures pos <= |line| && StringEnd(line, pos) == Some(pos + |text| + 2) && line[pos + 1..pos + |text| + 1] == text
  {
    hide Every;
    AtConcat(line, pos, ['"'], text + ['"']);
    AtConcat(line, pos + 1, text, ['"']);
    AtByte(line, pos, ['"'], 0);
    AtByte(line, pos + 1 + |text|, ['"'], 0);
    RunExact(line, pos + 1, Plain, text);
    AtIsSlice(line, pos + 1, text);
  }

  /** What may follow a member: a separator, the closing brace or the next key. */
  predicate Follows(c: char) {
    Separator(c) || c == '}' || c == '"'
  }

  lemma {:induction false} ValueRead(line: string, pos: nat, s: Scalar)
    requires ScalarWf(s) && At(line, pos, ScalarText(s)) && pos + |ScalarText(s)| < |line| && Follows(line[pos + |ScalarText(s)|])
    ensures pos < |line| && ValueAt(line, pos) == Some((s, pos + |ScalarText(s)|))
  {
    hide Every, RunEnd, StringEnd;
    AtByte(line, pos, ScalarText(s), 0);
    match s.kind
    case StringScalar =>
      StringRead(line, pos, s.text);
    case NumberScalar =>
      RunExact(line, pos, NumberChar, s.text);
      AtIsSlice(line, pos, s.text);
    case LiteralScalar =>
      RunExact(line, pos, Lower, s.text);
      AtIsSlice(line, pos, s.text);
  }

  /** The parts of a printed member, one after the other. */
  lemma {:induction false} MemberParts(line: string, pos: nat, w: Written)
    requires At(line, pos, MemberText(w))
    ensures var colon := pos + |w.key| + 2 + |w.afterKey|;
      && At(line, pos, ['"'] + (w.key + ['"'])) && At(line, pos + |w.key| + 2, w.afterKey)
      && At(line, colon, [':']) && At(line, colon + 1, w.afterColon)
      && At(line, colon + 1 + |w.afterColon|, ScalarText(w.scalar))
      && pos + |MemberText(w)| == colon + 1 + |w.afterColon| + |ScalarText(w.scalar)|
  {
    hide At, ScalarText;
    var value := ScalarText(w.scalar);
    var t1 := w.afterColon + value;
    var t2 := [':'] + t1;
    var t3 := w.afterKey + t2;
    var quoted := ['"'] + (w.key + ['"']);
    assert MemberText(w) == quoted + t3;
    AtConcat(line, pos, quoted, t3);
    AtConcat(line, pos + |w.key| + 2, w.afterKey, t2);
    AtConcat(line, pos + |w.key| + 2 + |w.afterKey|, [':'], t1);
    AtConcat(line, pos + |w.key| + 2 + |w.afterKey| + 1, w.afterColon, value);
  }

  lemma {:induction false} ScalarHead(s: Scalar)
    requires ScalarWf(s)
    ensures ScalarText(s) != "" && !InlineBlank(ScalarText(s)[0])
  {
  }

  lemma {:induction false} KeyValueIs(line: string, pos: nat, keyEnd: nat, colon: nat, valueAt: nat, scalar: Scalar, end: nat)
    requires pos < |line| && StringEnd(line, pos) == Some(keyEnd) && RunEnd(line, keyEnd, InlineBlank) == colon
    requires colon < |line| && line[colon] == ':' && RunEnd(line, colon + 1, InlineBlank) == valueAt
    requires valueAt < |line| && ValueAt(line, valueAt) == Some((scalar, end))
    ensures KeyValueAt(line, pos) == Some((Member(line[pos + 1..keyEnd - 1], scalar), end))
  {
    hide StringEnd, RunEnd, ValueAt, Every;
  }

  lemma {:induction false} MemberRead(line: string, pos: nat, w: Written)
    requires WrittenWf(w) && At(line, pos, MemberText(w))
    requires pos + |MemberText(w)| < |line| && Follows(line[pos + |MemberText(w)|])
    ensures pos < |line| && KeyValueAt(line, pos) == Some((MemberOf(w), pos + |MemberText(w)|))
  {
    hide At, Every, ScalarWf, ScalarText, Follows, StringEnd, RunEnd, ValueAt, KeyValueAt, InlineBlank;
    MemberParts(line, pos, w);
    hide MemberText;
    var keyEnd := pos + |w.key| + 2;
    var colon := keyEnd + |w.afterKey|;
    var valueAt := colon + 1 + |w.afterColon|;
    StringRead(line, pos, w.key);
    AtByte(line, colon, [':'], 0);
    ColonIsNoBlank();
    RunExact(line, keyEnd, InlineBlank, w.afterKey);
    ScalarHead(w.scalar);
    AtByte(line, valueAt, ScalarText(w.scalar), 0);
    RunExact(line, colon + 1, InlineBlank, w.afterColon);
    ValueRead(line, valueAt, w.scalar);
    AtByte(line, pos, ['"'] + (w.key + ['"']), 0);
    KeyValueIs(line, pos, keyEnd, colon, valueAt, w.scalar, valueAt + |ScalarText(w.scalar)|);
  }

  lemma {:induction false} ColonIsNoBlank()
    ensures !InlineBlank(':')
  {
  }

  /** Separators are passed, commas included. */
  lemma {:induction false} BodySkips(line: string, pos: nat)
    requires pos < |line| && Separator(line[pos])
    ensures BodyAt(line, pos) == BodyAt(line, pos + 1)
  {
    hide KeyValueAt, Every;
    if Whitespace(line[pos]) {
      assert RunEnd(line, pos, Whitespace) == RunEnd(line, pos + 1, Whitespace);
    } else {
      assert RunEnd(line, pos, Whitespace) == pos;
    }
  }

  lemma {:induction false} SeparatorsPassed(line: string, pos: nat, sep: string)
    requires At(line, pos, sep) && Every(Separator, sep)
    ensures pos + |sep| <= |line| && BodyAt(line, pos) == BodyAt(line, pos + |sep|)
    decreases |sep|
  {
    hide BodyAt, Separator, At;
    AtIsSlice(line, pos, sep);
    if sep != "" {
      AtByte(line, pos, sep, 0);
      AtConcat(line, pos, [sep[0]], sep[1..]);
      assert sep == [sep[0]] + sep[1..];
      BodySkips(line, pos);
      SeparatorsPassed(line, pos + 1, sep[1..]);
    }
  }

  lemma {:induction false} BodyHead(ws: seq<Written>, tail: string, rest: string)
    requires (forall i :: 0 <= i < |ws| ==> WrittenWf(ws[i])) && Every(Separator, tail)
    ensures BodyText(ws, tail, rest) != "" && Follows(BodyText(ws, tail, rest)[0])
  {
    if ws != [] {
      assert WrittenWf(ws[0]);
    }
  }

  lemma {:induction false} BodyRead(line: string, pos: nat, ws: seq<Written>, tail: string, rest: string)
    requires (forall i :: 0 <= i < |ws| ==> WrittenWf(ws[i])) && Every(Separator, tail)
    requires At(line, pos, BodyText(ws, tail, rest))
    ensures pos <= |line| && BodyAt(line, pos) == Some(MembersOf(ws))
    decreases |ws|
  {
    hide At, Every, WrittenWf, MemberText, KeyValueAt, Follows;
    if ws == [] {
      AtConcat(line, pos, tail, ['}'] + rest);
      AtConcat(line, pos + |tail|, ['}'], rest);
      AtByte(line, pos + |tail|, ['}'], 0);
      SeparatorsPassed(line, pos, tail);
    } else {
      var w, body := ws[0], BodyText(ws[1..], tail, rest);
      var at := pos + |w.before|;
      BodyHead(ws[1..], tail, rest);
      AtConcat(line, pos, w.before, MemberText(w) + body);
      AtConcat(line, at, MemberText(w), body);
      WrittenParts(w);
      SeparatorsPassed(line, pos, w.before);
      var next := at + |MemberText(w)|;
      AtByte(line, next, body, 0);
      MemberRead(line, at, w);
      AtByte(line, at, MemberText(w), 0);
      BodyRead(line, next, ws[1..], tail, rest);
    }
  }

  lemma {:induction false} WrittenParts(w: Written)
    requires WrittenWf(w)
    ensures Every(Separator, w.before) && MemberText(w) != "" && MemberText(w)[0] == '"'
  {
  }

  /** Every flat object printed with the blanks the reader allows is read, and its members reported in order. */
  lemma {:induction false} FlatComplete(lead: string, ws: seq<Written>, tail: string, rest: string)
    requires ObjectWf(lead, ws, tail)
    ensures FlatObject(ObjectText(lead, ws, tail, rest)) == Some(MembersOf(ws))
  {
    hide At, Every, WrittenWf, BodyText, BodyAt;
    var line := ObjectText(lead, ws, tail, rest);
    WholeAt(line);
    AtConcat(line, 0, lead, ['{'] + BodyText(ws, tail, rest));
    AtConcat(line, |lead|, ['{'], BodyText(ws, tail, rest));
    AtByte(line, |lead|, ['{'], 0);
    RunExact(line, 0, InlineBlank, lead);
    BodyRead(line, |lead| + 1, ws, tail, rest);
  }

  lemma {:induction false} WholeAt(line: string)
    ensures At(line, 0, line)
  {
    assert line[0..|line|] == line;
  }

  // ----- what is read was printed -----

  lemma {:induction false} StringFound(line: string, pos: nat)
    requires pos <= |line| && StringEnd(line, pos).Some?
    ensures var end := StringEnd(line, pos).value; var text := line[pos + 1..end - 1];
      Every(Plain, text) && line[pos..end] == ['"'] + (text + ['"'])
  {
    var end := StringEnd(line, pos).value;
    hide Every;
    assert line[pos..end] == [line[pos]] + (line[pos + 1..end - 1] + [line[end - 1]]);
  }

  lemma {:induction false} ValueFound(line: string, pos: nat)
    requires pos < |line| && ValueAt(line, pos).Some?
    ensures var (s, end) := ValueAt(line, pos).value; ScalarWf(s) && line[pos..end] == ScalarText(s)
  {
    if line[pos] == '"' {
      StringFound(line, pos);
    }
  }

  lemma {:induction false} Glue(line: string, i: nat, j: nat, k: nat)
    requires i <= j <= k <= |line|
    ensures line[i..k] == line[i..j] + line[j..k]
  {
  }

  lemma {:induction false} MemberFound(line: string, pos: nat, before: string) returns (w: Written)
    requires pos < |line| && KeyValueAt(line, pos).Some? && Every(Separator, before)
    ensures WrittenWf(w) && w.before == before
    ensures var (member, end) := KeyValueAt(line, pos).value; MemberOf(w) == member && line[pos..end] == MemberText(w)
  {
    hide Every, ValueAt, StringEnd, ScalarWf, ScalarText;
    var keyEnd := StringEnd(line, pos).value;
    var colon := RunEnd(line, keyEnd, InlineBlank);
    var valueAt := RunEnd(line, colon + 1, InlineBlank);
    var (scalar, end) := ValueAt(line, valueAt).value;
    StringFound(line, pos);
    ValueFound(line, valueAt);
    w := Written(before, line[pos + 1..keyEnd - 1], line[keyEnd..colon], line[colon + 1..valueAt], scalar);
    Glued(line, pos, keyEnd, colon, valueAt, end, w.key, ScalarText(scalar));
  }

  lemma {:induction false} Glued(line: string, pos: nat, keyEnd: nat, colon: nat, valueAt: nat, end: nat, key: string, value: string)
    requires pos <= keyEnd <= colon < valueAt <= end <= |line|
    requires line[pos..keyEnd] == ['"'] + (key + ['"']) && line[colon] == ':' && line[valueAt..end] == value
    ensures line[pos..end] == ['"'] + (key + (['"'] + (line[keyEnd..colon] + ([':'] + (line[colon + 1..valueAt] + value)))))
  {
    Glue(line, pos, keyEnd, end);
    Glue(line, keyEnd, colon, end);
    Glue(line, colon, colon + 1, end);
    Glue(line, colon + 1, valueAt, end);
    assert line[colon..colon + 1] == [':'];
    QuotedAssoc(key, line[keyEnd..colon] + ([':'] + (line[colon + 1..valueAt] + value)));
  }

  lemma {:induction false} QuotedAssoc(key: string, rest: string)
    ensures (['"'] + (key + ['"'])) + rest == ['"'] + (key + (['"'] + rest))
  {
  }

  lemma {:induction false} TailSplit(line: string, pos: nat, at: nat, sep: string)
    requires pos <= at <= |line|
    ensures sep + line[pos..] == (sep + line[pos..at]) + line[at..]
  {
    assert line[pos..] == line[pos..at] + line[at..];
  }

  lemma {:induction false} ConsWritten(w: Written, more: seq<Written>, tail: string, rest: string)
    requires WrittenWf(w) && ObjectWf("", more, tail)
    ensures ObjectWf("", [w] + more, tail) && MembersOf([w] + more) == [MemberOf(w)] + MembersOf(more)
    ensures BodyText([w] + more, tail, rest) == w.before + (MemberText(w) + BodyText(more, tail, rest))
  {
    hide WrittenWf, Every, MemberText;
    assert ([w] + more)[1..] == more;
  }

  /** The body at `pos`, with `sep` already read before it. */
  lemma {:induction false} BodyFound(line: string, pos: nat, sep: string) returns (ws: seq<Written>, tail: string, rest: string)
    requires pos <= |line| && BodyAt(line, pos).Some? && Every(Separator, sep)
    ensures ObjectWf("", ws, tail) && MembersOf(ws) == BodyAt(line, pos).value
    ensures sep + line[pos..] == BodyText(ws, tail, rest)
    decreases |line| - pos
  {
    hide Every, KeyValueAt, WrittenWf, MemberText, BodyText, ObjectWf, MembersOf;
    var at := RunEnd(line, pos, Whitespace);
    var before := sep + line[pos..at];
    SeparatorsJoin(sep, line[pos..at]);
    TailSplit(line, pos, at, sep);
    if line[at] == '}' {
      ws, tail, rest := [], before, line[at + 1..];
      ClosedBody(line, at, before);
    } else if line[at] == ',' {
      CommaJoins(before);
      ws, tail, rest := BodyFound(line, at + 1, before + [',']);
      CommaShift(line, at, before);
    } else {
      var w := MemberFound(line, at, before);
      var next := KeyValueAt(line, at).value.1;
      EmptyEvery();
      var more, t, r := BodyFound(line, next, "");
      ws, tail, rest := [w] + more, t, r;
      ConsWritten(w, more, tail, rest);
      MemberTail(line, at, next, MemberText(w), BodyText(more, tail, rest));
    }
  }

  lemma {:induction false} ClosedBody(line: string, at: nat, before: string)
    requires at < |line| && line[at] == '}' && Every(Separator, before)
    ensures ObjectWf("", [], before) && MembersOf([]) == []
    ensures before + line[at..] == BodyText([], before, line[at + 1..])
  {
    assert line[at..] == ['}'] + line[at + 1..];
  }

  lemma {:induction false} CommaShift(line: string, at: nat, before: string)
    requires at < |line| && line[at] == ','
    ensures before + line[at..] == (before + [',']) + line[at + 1..]
  {
    assert line[at..] == [','] + line[at + 1..];
  }

  lemma {:induction false} MemberTail(line: string, at: nat, next: nat, text: string, body: string)
    requires at <= next <= |line| && line[at..next] == text && "" + line[next..] == body
    ensures line[at..] == text + body
  {
    assert line[at..] == line[at..next] + line[next..];
  }

  lemma {:induction false} EmptyEvery()
    ensures Every(InlineBlank, "") && Every(Separator, "")
  {
  }

  lemma {:induction false} SeparatorsJoin(sep: string, blanks: string)
    requires Every(Separator, sep) && Every(Whitespace, blanks)
    ensures Every(Separator, sep + blanks)
  {
  }

  lemma {:induction false} CommaJoins(sep: string)
    requires Every(Separator, sep)
    ensures Every(Separator, sep + [','])
  {
  }

  /** Whatever the reader accepts is a printed flat object, and it reports that object's members. */
  lemma {:induction false} FlatSound(line: string) returns (lead: string, ws: seq<Written>, tail: string, rest: string)
    requires FlatObject(line).Some?
    ensures ObjectWf(lead, ws, tail) && line == ObjectText(lead, ws, tail, rest) && FlatObject(line).value == MembersOf(ws)
  {
    hide Every, BodyAt, BodyText, WrittenWf, MembersOf;
    var open := RunEnd(line, 0, InlineBlank);
    EmptyEvery();
    lead := line[0..open];
    ws, tail, rest := BodyFound(line, open + 1, "");
    OpenedBody(line, open, BodyText(ws, tail, rest));
  }

  lemma {:induction false} OpenedBody(line: string, open: nat, body: string)
    requires open < |line| && line[open] == '{' && "" + line[open + 1..] == body
    ensures line == line[0..open] + (['{'] + body)
  {
    assert line[open..] == ['{'] + line[open + 1..];
    assert line == line[0..open] + line[open..];
  }
}
