/**
 Concrete syntax trees of JSON texts: every byte of the text is somewhere in the tree, blanks and
 separators included, so printing a tree gives back exactly the text it was read from.

 `ParseValue` is the recogniser of core/src/mask/mask.cpp that also remembers what it passed.
 It is proved sound (what it returns is a well-formed tree printing to the bytes read) and complete
 (every well-formed tree, printed anywhere, is read back), so the printed form is unambiguous.
 */
module JsonTree {
  import opened Wrappers
  import opened Text
  import opened JsonGrammar

  /** The nesting bound past which a line is left as it is. */
  const MAX_DEPTH: nat := 128

  datatype Kind = ObjectKind | ArrayKind

  /** A container holds its slots and, after each slot, the text up to the next slot or the closer. */
  datatype Value =
    | Scalar(text: string)
    | Node(kind: Kind, lead: string, slots: seq<Slot>, seps: seq<string>)

  /** One member (`name`, the colon with its blanks, the value) or one array element (no name). */
  datatype Slot = Slot(name: string, colon: string, value: Value)

  function Open(kind: Kind): char {
    if kind.ObjectKind? then '{' else '['
  }

  function Close(kind: Kind): char {
    if kind.ObjectKind? then '}' else ']'
  }

  // ----- printing -----

  function Print(v: Value): string
    decreases v
  {
    match v
    case Scalar(text) => text
    case Node(kind, lead, slots, seps) => [Open(kind)] + (lead + (PrintBody(slots, seps) + [Close(kind)]))
  }

  function SlotText(s: Slot): string
    decreases s
  {
    s.name + (s.colon + Print(s.value))
  }

  function PrintBody(slots: seq<Slot>, seps: seq<string>): string
    decreases slots
  {
    if slots == [] || seps == [] then ""
    else SlotText(slots[0]) + (seps[0] + PrintBody(slots[1..], seps[1..]))
  }

  // ----- well-formed trees -----

  /** One `c` with blanks around it (the structural characters of section 2 of RFC 8259). */
  ghost predicate Around(s: string, c: char) {
    exists k: nat :: k < |s| && s[k] == c && AllBlank(s[..k]) && AllBlank(s[k + 1..])
  }

  ghost predicate WfSeps(seps: seq<string>) {
    if seps == [] then false
    else if |seps| == 1 then AllBlank(seps[0])
    else Around(seps[0], ',') && WfSeps(seps[1..])
  }

  ghost predicate WfHead(s: Slot, kind: Kind) {
    match kind
    case ObjectKind => StringText(s.name) && Around(s.colon, ':')
    case ArrayKind => s.name == "" && s.colon == ""
  }

  /** The JSON values of RFC 8259 nested at most `MAX_DEPTH - depth` deep. */
  ghost predicate Wf(v: Value, depth: nat)
    decreases v
  {
    match v
    case Scalar(text) => ScalarText(text)
    case Node(kind, lead, slots, seps) =>
      && depth < MAX_DEPTH
      && AllBlank(lead)
      && |slots| == |seps|
      && (seps != [] ==> WfSeps(seps))
      && forall i :: 0 <= i < |slots| ==> WfHead(slots[i], kind) && Wf(slots[i].value, depth + 1)
  }

  ghost predicate WfSlots(slots: seq<Slot>, kind: Kind, depth: nat) {
    forall i :: 0 <= i < |slots| ==> WfHead(slots[i], kind) && Wf(slots[i].value, depth)
  }

  // ----- reading -----

  datatype Parsed = Parsed(value: Value, end: nat)
  datatype ParsedBody = ParsedBody(slots: seq<Slot>, seps: seq<string>, end: nat)
  datatype Head = Head(name: string, colon: string, valueAt: nat)

  /** The index of a member's value after the name at `pos`, its colon and the blanks around it. */
  function MemberHead(src: string, pos: nat): (r: Option<Head>)
    requires pos <= |src|
    ensures r.Some? ==> pos < r.value.valueAt <= |src|
  {
    if pos >= |src| || src[pos] != '"' then None
    else
      match StringEnd(src, pos)
      case None => None
      case Some(nameEnd) =>
        var colonAt := SkipBlanks(src, nameEnd);
        if colonAt >= |src| || src[colonAt] != ':' then None
        else
          var valueAt := SkipBlanks(src, colonAt + 1);
          Some(Head(src[pos..nameEnd], src[nameEnd..valueAt], valueAt))
  }

  function ParseHead(src: string, pos: nat, kind: Kind): (r: Option<Head>)
    requires pos <= |src|
    ensures r.Some? ==> pos <= r.value.valueAt <= |src|
  {
    if kind.ObjectKind? then MemberHead(src, pos) else Some(Head("", "", pos))
  }

  function ParseValue(src: string, pos: nat, depth: nat): (r: Option<Parsed>)
    requires pos <= |src|
    ensures r.Some? ==> pos < r.value.end <= |src|
    decreases |src| - pos, 0
  {
    if pos >= |src| then None
    else if src[pos] != '{' && src[pos] != '[' then
      match ScalarEnd(src, pos)
      case None => None
      case Some(e) => Some(Parsed(Scalar(src[pos..e]), e))
    else if depth >= MAX_DEPTH then None
    else
      var kind := if src[pos] == '{' then ObjectKind else ArrayKind;
      var first := SkipBlanks(src, pos + 1);
      var lead := src[pos + 1..first];
      if first < |src| && src[first] == Close(kind) then
        Some(Parsed(Node(kind, lead, [], []), first + 1))
      else
        match ParseBody(src, first, kind, depth)
        case None => None
        case Some(body) => Some(Parsed(Node(kind, lead, body.slots, body.seps), body.end + 1))
  }

  /** The slots from `pos` up to the closer, which stands at `end`. */
  function ParseBody(src: string, pos: nat, kind: Kind, depth: nat): (r: Option<ParsedBody>)
    requires pos <= |src|
    ensures r.Some? ==> pos < r.value.end < |src| && src[r.value.end] == Close(kind)
    ensures r.Some? ==> r.value.slots != [] && |r.value.slots| == |r.value.seps|
    decreases |src| - pos, 1
  {
    match ParseHead(src, pos, kind)
    case None => None
    case Some(head) =>
      match ParseValue(src, head.valueAt, depth + 1)
      case None => None
      case Some(parsed) =>
        var slot := Slot(head.name, head.colon, parsed.value);
        var after := SkipBlanks(src, parsed.end);
        if after < |src| && src[after] == Close(kind) then
          Some(ParsedBody([slot], [src[parsed.end..after]], after))
        else if after >= |src| || src[after] != ',' then None
        else
          var next := SkipBlanks(src, after + 1);
          match ParseBody(src, next, kind, depth)
          case None => None
          case Some(rest) =>
            Some(ParsedBody([slot] + rest.slots, [src[parsed.end..next]] + rest.seps, rest.end))
  }

  // ----- soundness -----

  lemma {:induction false} AroundScanned(src: string, from: nat, c: char)
    requires from <= |src|
    requires SkipBlanks(src, from) < |src| && src[SkipBlanks(src, from)] == c
    ensures Around(src[from..SkipBlanks(src, SkipBlanks(src, from) + 1)], c)
  {
    var at := SkipBlanks(src, from);
    var end := SkipBlanks(src, at + 1);
    var s := src[from..end];
    var k := at - from;
    assert s[k] == c;
    SliceOfSlice(src, from, end, 0, k);
    SliceOfSlice(src, from, end, k + 1, end - from);
    assert s[..k] == src[from..at] && s[k + 1..] == src[at + 1..end];
  }

  lemma {:induction false} HeadSound(src: string, pos: nat, kind: Kind, value: Value)
    requires pos <= |src| && ParseHead(src, pos, kind).Some?
    ensures var head := ParseHead(src, pos, kind).value;
      && WfHead(Slot(head.name, head.colon, value), kind)
      && head.valueAt == pos + |head.name + head.colon|
      && At(src, pos, head.name) && At(src, pos + |head.name|, head.colon)
  {
    hide SkipBlanks, AllBlank, StringEnd, StringText, Around;
    if kind.ObjectKind? {
      var nameEnd := StringEnd(src, pos).value;
      StringEndExact(src, pos, nameEnd);
      AroundScanned(src, nameEnd, ':');
    }
  }

  /** Placing a slot, its separator and what follows one after the other. */
  lemma {:induction false} PlaceSlot(src: string, pos: nat, s: Slot, sep: string, rest: string)
    ensures At(src, pos, SlotText(s) + (sep + rest)) <==>
            && At(src, pos, s.name)
            && At(src, pos + |s.name|, s.colon)
            && At(src, pos + |s.name| + |s.colon|, Print(s.value))
            && At(src, pos + |SlotText(s)|, sep)
            && At(src, pos + |SlotText(s)| + |sep|, rest)
  {
    hide At, Print;
    AtConcat(src, pos, SlotText(s), sep + rest);
    AtConcat(src, pos + |SlotText(s)|, sep, rest);
    AtConcat(src, pos, s.name, s.colon + Print(s.value));
    AtConcat(src, pos + |s.name|, s.colon, Print(s.value));
  }

  lemma {:induction false} PlaceNode(src: string, pos: nat, kind: Kind, lead: string, body: string)
    ensures At(src, pos, [Open(kind)] + (lead + (body + [Close(kind)]))) <==>
            && At(src, pos, [Open(kind)])
            && At(src, pos + 1, lead)
            && At(src, pos + 1 + |lead|, body)
            && At(src, pos + 1 + |lead| + |body|, [Close(kind)])
  {
    hide At;
    AtConcat(src, pos, [Open(kind)], lead + (body + [Close(kind)]));
    AtConcat(src, pos + 1, lead, body + [Close(kind)]);
    AtConcat(src, pos + 1 + |lead|, body, [Close(kind)]);
  }

  lemma {:induction false} ConsBody(slot: Slot, sep: string, slots: seq<Slot>, seps: seq<string>)
    ensures PrintBody([slot] + slots, [sep] + seps) == SlotText(slot) + (sep + PrintBody(slots, seps))
  {
    assert ([slot] + slots)[1..] == slots && ([sep] + seps)[1..] == seps;
  }

  lemma {:induction false} ConsWf(slot: Slot, sep: string, slots: seq<Slot>, seps: seq<string>, kind: Kind, depth: nat)
    requires WfHead(slot, kind) && Wf(slot.value, depth) && WfSlots(slots, kind, depth)
    requires if seps == [] then AllBlank(sep) else Around(sep, ',') && WfSeps(seps)
    ensures WfSlots([slot] + slots, kind, depth) && WfSeps([sep] + seps)
  {
    assert ([sep] + seps)[1..] == seps;
  }

  lemma {:induction false} ByteIsAt(src: string, pos: nat)
    requires pos < |src|
    ensures At(src, pos, [src[pos]])
  {
    assert src[pos..pos + 1] == [src[pos]];
  }

  /** A container read between its brackets: the tree is well formed and prints back. */
  lemma {:induction false} NodeSound(src: string, pos: nat, kind: Kind, first: nat, slots: seq<Slot>, seps: seq<string>, end: nat, depth: nat)
    requires pos + 1 <= first <= end < |src| && src[pos] == Open(kind) && src[end] == Close(kind)
    requires AllBlank(src[pos + 1..first]) && depth < MAX_DEPTH && |slots| == |seps|
    requires WfSlots(slots, kind, depth + 1) && (seps != [] ==> WfSeps(seps))
    requires At(src, first, PrintBody(slots, seps)) && end == first + |PrintBody(slots, seps)|
    ensures var v := Node(kind, src[pos + 1..first], slots, seps);
      Wf(v, depth) && At(src, pos, Print(v)) && end + 1 == pos + |Print(v)|
  {
    hide At, Wf, Print, PrintBody, WfSlots, WfSeps, AllBlank, Open, Close;
    NodeWf(kind, src[pos + 1..first], slots, seps, depth);
    NodeText(kind, src[pos + 1..first], slots, seps);
    SliceIsAt(src, pos + 1, first);
    ByteIsAt(src, pos);
    ByteIsAt(src, end);
    PlaceNode(src, pos, kind, src[pos + 1..first], PrintBody(slots, seps));
  }

  lemma {:induction false} NodeWf(kind: Kind, lead: string, slots: seq<Slot>, seps: seq<string>, depth: nat)
    requires AllBlank(lead) && depth < MAX_DEPTH && |slots| == |seps|
    requires WfSlots(slots, kind, depth + 1) && (seps != [] ==> WfSeps(seps))
    ensures Wf(Node(kind, lead, slots, seps), depth)
  {
    hide AllBlank, WfSeps, WfHead;
  }

  lemma {:induction false} NodeText(kind: Kind, lead: string, slots: seq<Slot>, seps: seq<string>)
    requires |slots| == |seps|
    ensures Print(Node(kind, lead, slots, seps)) == [Open(kind)] + (lead + (PrintBody(slots, seps) + [Close(kind)]))
  {
    hide PrintBody;
  }

  /** What is read is a well-formed tree that prints to exactly the bytes read. */
  lemma {:induction false} ParseSound(src: string, pos: nat, depth: nat)
    requires pos <= |src| && ParseValue(src, pos, depth).Some?
    ensures var p := ParseValue(src, pos, depth).value;
      Wf(p.value, depth) && At(src, pos, Print(p.value)) && p.end == pos + |Print(p.value)|
    decreases |src| - pos, 0
  {
    hide At, PrintBody, WfSeps, ScalarEnd, ScalarText;
    if src[pos] != '{' && src[pos] != '[' {
      ScalarEndSound(src, pos);
      SliceIsAt(src, pos, ScalarEnd(src, pos).value);
    } else {
      hide Wf, Print;
      var kind := if src[pos] == '{' then ObjectKind else ArrayKind;
      var first := SkipBlanks(src, pos + 1);
      if first < |src| && src[first] == Close(kind) {
        EmptyBody(src, first);
        NodeSound(src, pos, kind, first, [], [], first, depth);
      } else {
        BodySound(src, first, kind, depth);
        var body := ParseBody(src, first, kind, depth).value;
        NodeSound(src, pos, kind, first, body.slots, body.seps, body.end, depth);
      }
    }
  }

  lemma {:induction false} EmptyBody(src: string, pos: nat)
    requires pos <= |src|
    ensures At(src, pos, PrintBody([], [])) && PrintBody([], []) == ""
  {
  }

  /** One step of `ParseBody`: a slot, its separator, then the closer or the remaining slots. */
  lemma {:induction false} BodyUnfolds(src: string, pos: nat, kind: Kind, depth: nat)
    requires pos <= |src| && ParseBody(src, pos, kind, depth).Some?
    ensures var b := ParseBody(src, pos, kind, depth).value;
      && ParseHead(src, pos, kind).Some?
      && var head := ParseHead(src, pos, kind).value;
      && ParseValue(src, head.valueAt, depth + 1).Some?
      && var parsed := ParseValue(src, head.valueAt, depth + 1).value;
      && var slot := Slot(head.name, head.colon, parsed.value);
      && var after := SkipBlanks(src, parsed.end);
      && after < |src|
      && if src[after] == Close(kind) then b == ParsedBody([slot], [src[parsed.end..after]], after)
         else
           && src[after] == ','
           && var next := SkipBlanks(src, after + 1);
           && ParseBody(src, next, kind, depth).Some?
           && var rest := ParseBody(src, next, kind, depth).value;
              b == ParsedBody([slot] + rest.slots, [src[parsed.end..next]] + rest.seps, rest.end)
  {
    hide ParseHead, ParseValue, SkipBlanks, Close;
  }

  lemma {:induction false} BodySound(src: string, pos: nat, kind: Kind, depth: nat)
    requires pos <= |src| && ParseBody(src, pos, kind, depth).Some?
    ensures var b := ParseBody(src, pos, kind, depth).value;
      && WfSlots(b.slots, kind, depth + 1) && WfSeps(b.seps)
      && At(src, pos, PrintBody(b.slots, b.seps)) && b.end == pos + |PrintBody(b.slots, b.seps)|
    decreases |src| - pos, 1
  {
    hide At, PrintBody, Print, SlotText, Wf, WfSlots, WfSeps, WfHead, Around, ParseHead, ParseValue, ParseBody, SkipBlanks;
    BodyUnfolds(src, pos, kind, depth);
    var head := ParseHead(src, pos, kind).value;
    var parsed := ParseValue(src, head.valueAt, depth + 1).value;
    var slot := Slot(head.name, head.colon, parsed.value);
    HeadSound(src, pos, kind, parsed.value);
    ParseSound(src, head.valueAt, depth + 1);
    SlotLength(slot);
    var after := SkipBlanks(src, parsed.end);
    if src[after] == Close(kind) {
      var sep := src[parsed.end..after];
      SliceIsAt(src, parsed.end, after);
      EmptyBody(src, after);
      BodyStepSound(src, pos, slot, sep, [], [], kind, depth);
      assert [slot] + [] == [slot] && [sep] + [] == [sep];
    } else {
      var next := SkipBlanks(src, after + 1);
      var sep := src[parsed.end..next];
      AroundScanned(src, parsed.end, ',');
      SliceIsAt(src, parsed.end, next);
      BodySound(src, next, kind, depth);
      var rest := ParseBody(src, next, kind, depth).value;
      BodyStepSound(src, pos, slot, sep, rest.slots, rest.seps, kind, depth);
    }
  }

  lemma {:induction false} SlotLength(s: Slot)
    ensures |SlotText(s)| == |s.name + s.colon| + |Print(s.value)|
  {
  }

  lemma {:induction false} BodyStepSound(src: string, pos: nat, slot: Slot, sep: string, slots: seq<Slot>, seps: seq<string>, kind: Kind, depth: nat)
    requires WfHead(slot, kind) && Wf(slot.value, depth + 1)
    requires (slots == [] && seps == []) || WfSlots(slots, kind, depth + 1)
    requires if seps == [] then AllBlank(sep) else Around(sep, ',') && WfSeps(seps)
    requires At(src, pos, slot.name) && At(src, pos + |slot.name|, slot.colon)
    requires At(src, pos + |slot.name + slot.colon|, Print(slot.value))
    requires At(src, pos + |SlotText(slot)|, sep)
    requires At(src, pos + |SlotText(slot)| + |sep|, PrintBody(slots, seps))
    ensures WfSlots([slot] + slots, kind, depth + 1) && WfSeps([sep] + seps)
    ensures At(src, pos, PrintBody([slot] + slots, [sep] + seps))
    ensures |PrintBody([slot] + slots, [sep] + seps)| == |SlotText(slot)| + |sep| + |PrintBody(slots, seps)|
  {
    hide At, Wf, WfHead, Around;
    ConsWf(slot, sep, slots, seps, kind, depth + 1);
    ConsBody(slot, sep, slots, seps);
    PlaceSlot(src, pos, slot, sep, PrintBody(slots, seps));
  }

  // ----- completeness -----

  /** `blanks c blanks` followed by a non-blank is passed in two skips. */
  lemma {:induction false} AroundPassed(src: string, from: nat, s: string, c: char)
    requires At(src, from, s) && Around(s, c) && !Blank(c)
    requires from + |s| < |src| ==> !Blank(src[from + |s|])
    ensures var at := SkipBlanks(src, from); at < |src| && src[at] == c && SkipBlanks(src, at + 1) == from + |s|
  {
    hide At, SkipBlanks;
    var k: nat :| k < |s| && s[k] == c && AllBlank(s[..k]) && AllBlank(s[k + 1..]);
    PlaceAround(src, from, s, k);
    SkipBlanksExact(src, from, s[..k]);
    SkipBlanksExact(src, from + k + 1, s[k + 1..]);
  }

  lemma {:induction false} PlaceAround(src: string, from: nat, s: string, k: nat)
    requires At(src, from, s) && k < |s|
    ensures At(src, from, s[..k]) && from + k < |src| && src[from + k] == s[k] && At(src, from + k + 1, s[k + 1..])
  {
    hide At;
    assert s == s[..k] + ([s[k]] + s[k + 1..]);
    AtConcat(src, from, s[..k], [s[k]] + s[k + 1..]);
    AtConcat(src, from + k, [s[k]], s[k + 1..]);
    AtHead(src, from + k, [s[k]]);
  }

  /** A value opens with a byte that is neither a blank nor a closer. */
  lemma {:induction false} PrintHead(v: Value, depth: nat)
    requires Wf(v, depth)
    ensures Print(v) != "" && !Blank(Print(v)[0]) && Print(v)[0] != '}' && Print(v)[0] != ']'
  {
    if v.Scalar? {
      ScalarTextHead(v.text);
    }
  }

  lemma {:induction false} SlotTextHead(s: Slot, kind: Kind, depth: nat)
    requires WfHead(s, kind) && Wf(s.value, depth)
    ensures SlotText(s) != "" && !Blank(SlotText(s)[0]) && SlotText(s)[0] != '}' && SlotText(s)[0] != ']'
  {
    PrintHead(s.value, depth);
    if kind.ObjectKind? {
      assert SlotText(s)[0] == s.name[0];
    } else {
      assert SlotText(s) == Print(s.value);
    }
  }

  /** The byte after a slot's value cannot prolong a number. */
  lemma {:induction false} SepHead(src: string, pos: nat, sep: string, next: string)
    requires At(src, pos, sep) && At(src, pos + |sep|, next)
    requires AllBlank(sep) || Around(sep, ',')
    requires next != "" && (next[0] == '}' || next[0] == ']' || sep != "")
    ensures pos < |src| && !NumberByte(src[pos])
  {
    hide At, AllBlank, Around;
    if sep == "" {
      AtHead(src, pos, next);
    } else {
      AtHead(src, pos, sep);
      SepOpens(sep);
    }
  }

  /** A separator opens with a blank or with its comma. */
  lemma {:induction false} SepOpens(sep: string)
    requires sep != "" && (AllBlank(sep) || Around(sep, ','))
    ensures Blank(sep[0]) || sep[0] == ','
  {
    if Around(sep, ',') {
      var k: nat :| k < |sep| && sep[k] == ',' && AllBlank(sep[..k]) && AllBlank(sep[k + 1..]);
      if k > 0 {
        assert sep[..k][0] == sep[0];
      }
    }
  }

  lemma {:induction false} HeadComplete(src: string, pos: nat, s: Slot, kind: Kind, depth: nat)
    requires WfHead(s, kind) && Wf(s.value, depth)
    requires At(src, pos, s.name) && At(src, pos + |s.name|, s.colon)
    requires At(src, pos + |s.name| + |s.colon|, Print(s.value))
    ensures pos <= |src|
    ensures ParseHead(src, pos, kind) == Some(Head(s.name, s.colon, pos + |s.name| + |s.colon|))
  {
    hide At, Wf, Print, Around, SkipBlanks, StringEnd, StringText;
    PrintHead(s.value, depth);
    AtHead(src, pos + |s.name| + |s.colon|, Print(s.value));
    if kind.ObjectKind? {
      var nameEnd := pos + |s.name|;
      QuoteHead(s.name);
      AtHead(src, pos, s.name);
      AtIsSlice(src, pos, s.name);
      StringEndExact(src, pos, nameEnd);
      AroundPassed(src, nameEnd, s.colon, ':');
      AtIsSlice(src, nameEnd, s.colon);
    }
  }

  lemma {:induction false} QuoteHead(t: string)
    requires StringText(t)
    ensures |t| >= 2 && t[0] == '"'
  {
  }

  /** Past the opening bracket and the blanks after it stands the first slot or the closer. */
  lemma {:induction false} NodeOpens(src: string, pos: nat, kind: Kind, lead: string, slots: seq<Slot>, seps: seq<string>, depth: nat)
    requires Wf(Node(kind, lead, slots, seps), depth) && At(src, pos, Print(Node(kind, lead, slots, seps)))
    ensures var first := pos + 1 + |lead|;
      && pos < first < |src| && src[pos] == Open(kind) && SkipBlanks(src, pos + 1) == first && src[pos + 1..first] == lead
      && At(src, first, PrintBody(slots, seps)) && At(src, first + |PrintBody(slots, seps)|, [Close(kind)])
      && if slots == [] then src[first] == Close(kind) else src[first] != Close(kind)
  {
    hide At, ScalarText, WfSeps;
    var body := PrintBody(slots, seps);
    var first := pos + 1 + |lead|;
    PlaceNode(src, pos, kind, lead, body);
    AtHead(src, pos, [Open(kind)]);
    AtIsSlice(src, pos + 1, lead);
    AtHead(src, first + |body|, [Close(kind)]);
    if slots != [] {
      SlotTextHead(slots[0], kind, depth + 1);
      assert body[0] == SlotText(slots[0])[0];
      AtHead(src, first, body);
    }
    SkipBlanksExact(src, pos + 1, lead);
  }

  /** Every well-formed tree, printed anywhere in a text, is read back. */
  lemma {:induction false} ParseComplete(src: string, pos: nat, v: Value, depth: nat)
    requires Wf(v, depth) && At(src, pos, Print(v))
    requires v.Scalar? && pos + |Print(v)| < |src| ==> !NumberByte(src[pos + |Print(v)|])
    ensures pos <= |src| && ParseValue(src, pos, depth) == Some(Parsed(v, pos + |Print(v)|))
    decreases v
  {
    hide At, PrintBody, ScalarEnd, ScalarText, SkipBlanks, ParseBody, WfSeps, WfHead;
    match v
    case Scalar(text) =>
      ScalarEndComplete(src, pos, text);
      ScalarTextHead(text);
      AtHead(src, pos, text);
      AtIsSlice(src, pos, text);
    case Node(kind, lead, slots, seps) =>
      NodeOpens(src, pos, kind, lead, slots, seps, depth);
      if slots == [] {
        EmptyBody(src, pos + 1 + |lead|);
      } else {
        BodyComplete(src, pos + 1 + |lead|, slots, seps, kind, depth);
      }
  }

  /** Reading the first slot, its separator and what the separator leads to. */
  lemma {:induction false} BodyStepComplete(src: string, pos: nat, slot: Slot, sep: string, follow: string, kind: Kind, depth: nat)
    requires WfHead(slot, kind) && Wf(slot.value, depth)
    requires At(src, pos, SlotText(slot) + (sep + follow)) && follow != "" && !Blank(follow[0])
    requires if follow[0] == Close(kind) then AllBlank(sep) else Around(sep, ',')
    ensures pos + |SlotText(slot)| + |sep| < |src| && src[pos + |SlotText(slot)| + |sep|] == follow[0]
    ensures At(src, pos + |slot.name + slot.colon|, Print(slot.value))
    ensures !NumberByte(src[pos + |SlotText(slot)|])
    ensures ParseHead(src, pos, kind) == Some(Head(slot.name, slot.colon, pos + |slot.name + slot.colon|))
    ensures src[pos + |SlotText(slot)|..pos + |SlotText(slot)| + |sep|] == sep
    ensures var end := pos + |SlotText(slot)|;
      if follow[0] == Close(kind) then SkipBlanks(src, end) == end + |sep|
      else var at := SkipBlanks(src, end); at < |src| && src[at] == ',' && SkipBlanks(src, at + 1) == end + |sep|
  {
    hide At, Wf, WfHead, SlotText, Print, ParseHead, SkipBlanks;
    var end := pos + |SlotText(slot)|;
    SlotLength(slot);
    PlaceSlot(src, pos, slot, sep, follow);
    HeadComplete(src, pos, slot, kind, depth);
    AtHead(src, end + |sep|, follow);
    AtIsSlice(src, end, sep);
    SepHead(src, end, sep, follow);
    if follow[0] == Close(kind) {
      SkipBlanksExact(src, end, sep);
    } else {
      AroundPassed(src, end, sep, ',');
    }
  }

  /** One step of `ParseBody`, the other way round: what the parts give, the whole gives. */
  lemma {:induction false} BodyCloses(src: string, pos: nat, slot: Slot, at: nat, end: nat, sep: string, kind: Kind, depth: nat)
    requires pos <= |src| && at <= |src| && end + |sep| < |src|
    requires ParseHead(src, pos, kind) == Some(Head(slot.name, slot.colon, at))
    requires ParseValue(src, at, depth + 1) == Some(Parsed(slot.value, end)) && src[end..end + |sep|] == sep
    requires SkipBlanks(src, end) == end + |sep| && src[end + |sep|] == Close(kind)
    ensures ParseBody(src, pos, kind, depth) == Some(ParsedBody([slot], [sep], end + |sep|))
  {
    hide ParseHead, ParseValue, SkipBlanks, Close;
  }

  lemma {:induction false} BodyGoesOn(src: string, pos: nat, slot: Slot, at: nat, end: nat, sep: string, kind: Kind, depth: nat)
    requires pos <= |src| && at <= |src| && end + |sep| < |src|
    requires ParseHead(src, pos, kind) == Some(Head(slot.name, slot.colon, at))
    requires ParseValue(src, at, depth + 1) == Some(Parsed(slot.value, end)) && src[end..end + |sep|] == sep
    requires var after := SkipBlanks(src, end);
      after < |src| && src[after] == ',' && SkipBlanks(src, after + 1) == end + |sep|
    requires ParseBody(src, end + |sep|, kind, depth).Some?
    ensures ParseBody(src, pos, kind, depth) == Some(Followed(slot, sep, ParseBody(src, end + |sep|, kind, depth).value))
  {
    hide ParseHead, ParseValue, SkipBlanks;
  }

  function Followed(slot: Slot, sep: string, rest: ParsedBody): ParsedBody {
    ParsedBody([slot] + rest.slots, [sep] + rest.seps, rest.end)
  }

  lemma {:induction false} BodyPrints(slots: seq<Slot>, seps: seq<string>, tail: string)
    requires slots != [] && |slots| == |seps|
    ensures var rest := PrintBody(slots[1..], seps[1..]);
      && PrintBody(slots, seps) == SlotText(slots[0]) + (seps[0] + rest)
      && PrintBody(slots, seps) + tail == SlotText(slots[0]) + (seps[0] + (rest + tail))
    ensures |slots| > 1 ==> SlotText(slots[1]) <= PrintBody(slots[1..], seps[1..])
  {
  }

  /** What stands where, when a non-empty body and its closer are printed at `pos`. */
  lemma {:induction false} BodyStands(src: string, pos: nat, slots: seq<Slot>, seps: seq<string>, kind: Kind, depth: nat)
    requires slots != [] && |slots| == |seps| && WfSlots(slots, kind, depth + 1) && WfSeps(seps)
    requires At(src, pos, PrintBody(slots, seps)) && At(src, pos + |PrintBody(slots, seps)|, [Close(kind)])
    ensures var slot, sep, rest := slots[0], seps[0], PrintBody(slots[1..], seps[1..]);
      && At(src, pos, SlotText(slot) + (sep + (rest + [Close(kind)])))
      && |PrintBody(slots, seps)| == |SlotText(slot)| + |sep| + |rest|
      && At(src, pos + |SlotText(slot)| + |sep|, rest)
      && At(src, pos + |SlotText(slot)| + |sep| + |rest|, [Close(kind)])
    ensures var follow := (PrintBody(slots[1..], seps[1..]) + [Close(kind)])[0];
      !Blank(follow) && (follow == Close(kind) <==> |slots| == 1)
  {
    hide At, Wf, WfHead, Around, AllBlank, SlotText, Print, PrintBody;
    var rest := PrintBody(slots[1..], seps[1..]);
    BodyPrints(slots, seps, [Close(kind)]);
    EmptyPrint(slots[1..], seps[1..]);
    AtConcat(src, pos, PrintBody(slots, seps), [Close(kind)]);
    BodyFollow(slots, kind, depth + 1, rest);
    PlaceSlot(src, pos, slots[0], seps[0], rest);
  }

  lemma {:induction false} HeadAndTail<T>(xs: seq<T>)
    requires xs != []
    ensures xs == [xs[0]] + xs[1..] && (|xs| == 1 ==> xs == [xs[0]])
  {
  }

  lemma {:induction false} EmptyPrint(slots: seq<Slot>, seps: seq<string>)
    requires |slots| == |seps|
    ensures slots == [] ==> PrintBody(slots, seps) == ""
  {
  }

  lemma {:induction false} WfFirst(slots: seq<Slot>, seps: seq<string>, kind: Kind, depth: nat)
    requires slots != [] && |slots| == |seps| && WfSlots(slots, kind, depth) && WfSeps(seps)
    ensures WfHead(slots[0], kind) && Wf(slots[0].value, depth)
    ensures if |slots| == 1 then AllBlank(seps[0]) else Around(seps[0], ',')
    ensures |slots| > 1 ==> WfSlots(slots[1..], kind, depth) && WfSeps(seps[1..])
  {
    hide Wf, WfHead, Around, AllBlank;
  }

  lemma {:induction false} BodyComplete(src: string, pos: nat, slots: seq<Slot>, seps: seq<string>, kind: Kind, depth: nat)
    requires slots != [] && |slots| == |seps| && WfSlots(slots, kind, depth + 1) && WfSeps(seps)
    requires At(src, pos, PrintBody(slots, seps)) && At(src, pos + |PrintBody(slots, seps)|, [Close(kind)])
    ensures pos <= |src|
    ensures ParseBody(src, pos, kind, depth) == Some(ParsedBody(slots, seps, pos + |PrintBody(slots, seps)|))
    decreases slots
  {
    hide At, Wf, WfHead, WfSlots, WfSeps, Around, AllBlank, Blank, ParseHead, ParseValue, ParseBody, SkipBlanks, SlotText, Print, PrintBody;
    var slot, sep, rest := slots[0], seps[0], PrintBody(slots[1..], seps[1..]);
    var at, end := pos + |slot.name + slot.colon|, pos + |SlotText(slot)|;
    WfFirst(slots, seps, kind, depth + 1);
    HeadAndTail(slots);
    HeadAndTail(seps);
    SlotLength(slot);
    BodyStands(src, pos, slots, seps, kind, depth);
    BodyStepComplete(src, pos, slot, sep, rest + [Close(kind)], kind, depth + 1);
    ParseComplete(src, at, slot.value, depth + 1);
    if |slots| == 1 {
      EmptyPrint(slots[1..], seps[1..]);
      BodyCloses(src, pos, slot, at, end, sep, kind, depth);
    } else {
      BodyComplete(src, end + |sep|, slots[1..], seps[1..], kind, depth);
      BodyGoesOn(src, pos, slot, at, end, sep, kind, depth);
    }
  }

  /** After a separator comes the closer, or a slot's first byte, which is no closer. */
  lemma {:induction false} BodyFollow(slots: seq<Slot>, kind: Kind, depth: nat, rest: string)
    requires slots != [] && WfSlots(slots, kind, depth)
    requires |slots| == 1 ==> rest == ""
    requires |slots| > 1 ==> SlotText(slots[1]) <= rest
    ensures var follow := (rest + [Close(kind)])[0]; !Blank(follow) && (follow == Close(kind) <==> |slots| == 1)
  {
    if |slots| > 1 {
      SlotTextHead(slots[1], kind, depth);
      assert rest[0] == SlotText(slots[1])[0];
    }
  }

  /** Printing is unambiguous: one text is the text of at most one well-formed container. */
  lemma {:induction false} PrintInjective(v: Value, w: Value, depth: nat)
    requires Wf(v, depth) && Wf(w, depth) && Print(v) == Print(w)
    ensures v == w
  {
    ParseComplete(Print(v), 0, v, depth);
    ParseComplete(Print(v), 0, w, depth);
  }
}
