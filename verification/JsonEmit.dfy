/**
 `emit` and `json_member_order` of core/src/mask/mask.cpp: the loops that write a line in member
 order, proved to print exactly the normal form of the tree the recogniser accepted.
 */
module JsonEmit {
  import opened Wrappers
  import opened Text
  import opened KeySort
  import opened JsonGrammar
  import opened JsonTree
  import opened JsonOrder
  import opened JsonDocument
  import opened JsonScan
  import JsonNames

  // ----- members as the source keeps them: a key and a text -----

  function Texts(xs: seq<Keyed<Slot>>): (r: seq<Keyed<string>>)
    ensures |r| == |xs|
    ensures forall i :: 0 <= i < |xs| ==> r[i] == Keyed(xs[i].key, SlotText(xs[i].item))
  {
    if xs == [] then [] else [Keyed(xs[0].key, SlotText(xs[0].item))] + Texts(xs[1..])
  }

  function Joined(texts: seq<Keyed<string>>, seps: seq<string>): string {
    if texts == [] || seps == [] then ""
    else texts[0].item + (seps[0] + Joined(texts[1..], seps[1..]))
  }

  lemma {:induction false} JoinedIsBody(xs: seq<Keyed<Slot>>, seps: seq<string>)
    ensures Joined(Texts(xs), seps) == PrintBody(Items(xs), seps)
  {
    hide SlotText;
    if xs != [] && seps != [] {
      assert Items(xs)[1..] == Items(xs[1..]);
      JoinedIsBody(xs[1..], seps[1..]);
    }
  }

  lemma {:induction false} InsertText(x: Keyed<Slot>, xs: seq<Keyed<Slot>>)
    ensures Texts(Insert(x, xs)) == Insert(Keyed(x.key, SlotText(x.item)), Texts(xs))
  {
    hide SlotText, Less;
    if xs != [] && !Less(x.key, xs[0].key) {
      InsertText(x, xs[1..]);
    }
  }

  /** Sorting texts by key is sorting the slots they print. */
  lemma {:induction false} SortTexts(xs: seq<Keyed<Slot>>)
    ensures SortByKey(Texts(xs)) == Texts(SortByKey(xs))
    ensures AdjacentRepeat(Texts(xs)) <==> AdjacentRepeat(xs)
  {
    hide SlotText, Insert;
    if xs != [] {
      SortTexts(xs[1..]);
      InsertText(xs[0], SortByKey(xs[1..]));
    }
    if AdjacentRepeat(xs) {
      var i :| 0 <= i < |xs| - 1 && xs[i].key == xs[i + 1].key;
      assert Texts(xs)[i].key == Texts(xs)[i + 1].key;
    }
  }

  lemma {:induction false} TextsSnoc(ns: seq<Slot>, s: Slot)
    ensures Texts(Keys(ns + [s])) == Texts(Keys(ns)) + [Keyed(KeyOf(s), SlotText(s))]
  {
    hide KeyOf, SlotText, Keys, Texts;
    var a, b := Texts(Keys(ns + [s])), Texts(Keys(ns)) + [Keyed(KeyOf(s), SlotText(s))];
    assert |a| == |b| && forall i :: 0 <= i < |a| ==> a[i] == b[i];
  }

  lemma {:induction false} BodySnoc(slots: seq<Slot>, seps: seq<string>, s: Slot, sep: string)
    requires |slots| == |seps|
    ensures PrintBody(slots + [s], seps + [sep]) == PrintBody(slots, seps) + (SlotText(s) + sep)
  {
    hide SlotText;
    if slots == [] {
      assert slots + [s] == [s] && seps + [sep] == [sep];
      assert PrintBody([s], [sep]) == SlotText(s) + (sep + "");
    } else {
      var head, first, rest := SlotText(slots[0]), seps[0], PrintBody(slots[1..], seps[1..]);
      assert (slots + [s])[1..] == slots[1..] + [s] && (seps + [sep])[1..] == seps[1..] + [sep];
      BodySnoc(slots[1..], seps[1..], s, sep);
      assert head + (first + (rest + (SlotText(s) + sep))) == head + (first + rest) + (SlotText(s) + sep);
    }
  }

  lemma {:induction false} NormalSnoc(done: seq<Slot>, s: Slot)
    requires NormalSlots(done).Some?
    ensures NormalSlots(done + [s]) ==
      match Normal(s.value)
      case None => None
      case Some(n) => Some(NormalSlots(done).value + [Slot(s.name, s.colon, n)])
  {
    hide Normal;
    NormalSlotsConcat(done, [s]);
    assert [s][1..] == [];
    match Normal(s.value)
    case None =>
    case Some(n) =>
      assert [Slot(s.name, s.colon, n)] + [] == [Slot(s.name, s.colon, n)];
  }

  lemma {:induction false} NormalFails(slots: seq<Slot>, i: nat)
    requires i < |slots| && Normal(slots[i].value).None?
    ensures NormalSlots(slots).None?
  {
    hide Normal, NormalSlots;
    NormalSlotsAt(slots);
  }

  // ----- the loops -----

  /** What the slot loop leaves: the closer, what arrays wrote, and what objects gathered. */
  datatype Gathered = Gathered(closer: Option<nat>, out: string, members: seq<Keyed<string>>, separators: seq<string>)

  /** `g` holds the first slots of a container, normalised as `ns`, with their separators: written
      after `out` when it is an array, gathered when it is an object. */
  ghost predicate Holds(g: Gathered, kind: Kind, ns: seq<Slot>, seps: seq<string>, out: string) {
    |ns| == |seps| &&
    if kind == ArrayKind then g.out == out + PrintBody(ns, seps)
    else g.out == out && g.members == Texts(Keys(ns)) && g.separators == seps
  }

  /** The first `done` slots of `body` lie behind `pos`, the rest from `pos` on. */
  ghost predicate Placed(src: string, pos: nat, kind: Kind, depth: nat, body: ParsedBody, done: nat) {
    && pos <= |src| && done <= |body.slots| == |body.seps|
    && ParseBody(src, pos, kind, depth) == Some(ParsedBody(body.slots[done..], body.seps[done..], body.end))
  }

  lemma {:induction false} DropHead<T>(xs: seq<T>, done: nat, head: T, rest: seq<T>)
    requires done <= |xs| && xs[done..] == [head] + rest
    ensures done < |xs| && xs[done] == head && xs[done + 1..] == rest
  {
    assert xs[done..][0] == head && xs[done..][1..] == rest;
    assert xs[done..][1..] == xs[done + 1..];
  }

  /** One slot as the recogniser passes it: the slot, where its value ends, the blanks after it, and
      its separator up to `next` (the closer itself when it is the last slot). */
  datatype SlotRead = SlotRead(slot: Slot, valueEnd: nat, after: nat, next: nat, sep: string)

  ghost function SlotAt(src: string, pos: nat, kind: Kind, depth: nat): (r: SlotRead)
    requires pos <= |src| && ParseBody(src, pos, kind, depth).Some?
    ensures pos <= r.valueEnd <= r.after <= r.next <= |src| && r.after < |src|
  {
    BodyUnfolds(src, pos, kind, depth);
    var head := ParseHead(src, pos, kind).value;
    var parsed := ParseValue(src, head.valueAt, depth + 1).value;
    var after := SkipBlanks(src, parsed.end);
    var next := if src[after] == Close(kind) then after else SkipBlanks(src, after + 1);
    SlotRead(Slot(head.name, head.colon, parsed.value), parsed.end, after, next, src[parsed.end..next])
  }

  lemma {:induction false} SlotFacts(src: string, pos: nat, kind: Kind, depth: nat)
    requires pos <= |src| && ParseBody(src, pos, kind, depth).Some?
    ensures var r := SlotAt(src, pos, kind, depth);
      && r.after == SkipBlanks(src, r.valueEnd) && r.sep == src[r.valueEnd..r.next]
      && if src[r.after] == Close(kind) then r.next == r.after else r.next == SkipBlanks(src, r.after + 1) && pos < r.next
  {
    hide ParseBody, ParseHead, ParseValue, SkipBlanks;
  }

  lemma {:induction false} SlotThenRest(src: string, pos: nat, kind: Kind, depth: nat)
    requires pos <= |src| && ParseBody(src, pos, kind, depth).Some?
    ensures var r := SlotAt(src, pos, kind, depth);
      if src[r.after] == Close(kind) then ParseBody(src, pos, kind, depth) == Some(ParsedBody([r.slot] + [], [r.sep] + [], r.after))
      else
        && ParseBody(src, r.next, kind, depth).Some?
        && var rest := ParseBody(src, r.next, kind, depth).value;
           ParseBody(src, pos, kind, depth) == Some(ParsedBody([r.slot] + rest.slots, [r.sep] + rest.seps, rest.end))
  {
    BodyUnfolds(src, pos, kind, depth);
    hide ParseBody, ParseHead, ParseValue, SkipBlanks;
    SlotFacts(src, pos, kind, depth);
    var r := SlotAt(src, pos, kind, depth);
    assert [r.slot] + [] == [r.slot] && [r.sep] + [] == [r.sep];
  }

  /** The slot just read is the next one of the body, and what follows it lies where the loop goes on. */
  lemma {:induction false} NextSlot(src: string, pos: nat, kind: Kind, depth: nat, body: ParsedBody, done: nat)
    requires Placed(src, pos, kind, depth, body, done)
    ensures ParseBody(src, pos, kind, depth).Some? && done < |body.slots|
    ensures var r := SlotAt(src, pos, kind, depth);
      && body.slots[done] == r.slot && body.seps[done] == r.sep
      && if src[r.after] == Close(kind) then body.end == r.after && done + 1 == |body.slots|
         else Placed(src, r.next, kind, depth, body, done + 1)
  {
    hide ParseBody, SlotAt;
    SlotFacts(src, pos, kind, depth);
    SlotThenRest(src, pos, kind, depth);
    var r := SlotAt(src, pos, kind, depth);
    var slots, seps := if src[r.after] == Close(kind) then [] else ParseBody(src, r.next, kind, depth).value.slots,
                       if src[r.after] == Close(kind) then [] else ParseBody(src, r.next, kind, depth).value.seps;
    DropHead(body.slots, done, r.slot, slots);
    DropHead(body.seps, done, r.sep, seps);
  }

  /** The state of the slot loop at `pos`: `done` slots of `body` passed, normal as `ns`, held in `g`. */
  ghost predicate Midway(src: string, pos: nat, kind: Kind, depth: nat, body: ParsedBody, done: nat, ns: seq<Slot>, g: Gathered, out: string) {
    && Placed(src, pos, kind, depth, body, done)
    && NormalSlots(body.slots[..done]) == Some(ns) && Holds(g, kind, ns, body.seps[..done], out)
  }

  lemma {:induction false} MidwaySlot(src: string, pos: nat, kind: Kind, depth: nat, body: ParsedBody, done: nat, ns: seq<Slot>, g: Gathered, out: string)
    requires Midway(src, pos, kind, depth, body, done, ns, g, out)
    ensures pos <= |src| && ParseBody(src, pos, kind, depth).Some? && done < |body.slots| == |body.seps|
    ensures Holds(g, kind, ns, body.seps[..done], out)
    ensures Normal(SlotAt(src, pos, kind, depth).slot.value).None? ==> NormalSlots(body.slots).None?
  {
    hide ParseBody, SlotAt, Normal, NormalSlots, Holds;
    NextSlot(src, pos, kind, depth, body, done);
    if Normal(SlotAt(src, pos, kind, depth).slot.value).None? {
      NormalFails(body.slots, done);
    }
  }

  lemma {:induction false} MidwayStep(src: string, pos: nat, kind: Kind, depth: nat, body: ParsedBody, done: nat, ns: seq<Slot>, g: Gathered, out: string,
                                      t: Slot, g': Gathered)
    requires Midway(src, pos, kind, depth, body, done, ns, g, out) && ParseBody(src, pos, kind, depth).Some?
    requires done <= |body.seps|
    requires var r := SlotAt(src, pos, kind, depth);
      && Normal(r.slot.value) == Some(t.value) && t.name == r.slot.name && t.colon == r.slot.colon
      && Holds(g', kind, ns + [t], body.seps[..done] + [r.sep], out)
    ensures var r := SlotAt(src, pos, kind, depth);
      if src[r.after] == Close(kind) then
        body.end == r.after && NormalSlots(body.slots) == Some(ns + [t]) && Holds(g', kind, ns + [t], body.seps, out)
      else Midway(src, r.next, kind, depth, body, done + 1, ns + [t], g', out)
  {
    hide ParseBody, SlotAt, Normal, NormalSlots, Holds;
    NextSlot(src, pos, kind, depth, body, done);
    SlotFacts(src, pos, kind, depth);
    var r := SlotAt(src, pos, kind, depth);
    var t' := TakeMore(body, done, ns, t.value);
    assert t' == t;
    assert body.seps[..done + 1] == body.seps[..done] + [r.sep];
    if src[r.after] == Close(kind) {
      assert body.slots[..done + 1] == body.slots && body.seps[..done + 1] == body.seps;
    }
  }

  lemma {:induction false} TakeMore(body: ParsedBody, done: nat, ns: seq<Slot>, n: Value) returns (t: Slot)
    requires done < |body.slots| && NormalSlots(body.slots[..done]) == Some(ns)
    requires Normal(body.slots[done].value) == Some(n)
    ensures t == Slot(body.slots[done].name, body.slots[done].colon, n)
    ensures NormalSlots(body.slots[..done + 1]) == Some(ns + [t])
  {
    hide Normal, NormalSlots;
    t := Slot(body.slots[done].name, body.slots[done].colon, n);
    assert body.slots[..done + 1] == body.slots[..done] + [body.slots[done]];
    NormalSnoc(body.slots[..done], body.slots[done]);
  }

  lemma {:induction false} HoldsMoreItem(g: Gathered, ns: seq<Slot>, seps: seq<string>, out: string, t: Slot, sep: string)
    requires Holds(g, ArrayKind, ns, seps, out) && t.name == "" && t.colon == ""
    ensures Holds(g.(out := g.out + Print(t.value) + sep), ArrayKind, ns + [t], seps + [sep], out)
  {
    assert SlotText(t) == Print(t.value);
    hide PrintBody, SlotText, Print, Texts, Keys;
    BodySnoc(ns, seps, t, sep);
    assert out + PrintBody(ns, seps) + Print(t.value) + sep == out + (PrintBody(ns, seps) + (Print(t.value) + sep));
  }

  lemma {:induction false} HoldsMoreMember(g: Gathered, ns: seq<Slot>, seps: seq<string>, out: string, t: Slot, sep: string)
    requires Holds(g, ObjectKind, ns, seps, out)
    ensures var g' := g.(members := g.members + [Keyed(KeyOf(t), t.name + t.colon + Print(t.value))], separators := g.separators + [sep]);
      Holds(g', ObjectKind, ns + [t], seps + [sep], out)
  {
    assert SlotText(t) == t.name + t.colon + Print(t.value);
    hide PrintBody, SlotText, Print, Texts, Keys, KeyOf;
    TextsSnoc(ns, t);
  }

  /** The slot loop of `emit`: array elements go straight to `out`, members are gathered. */
  method EmitSlots(src: string, first: nat, kind: Kind, ghost depth: nat, out: string) returns (g: Gathered)
    requires first <= |src| && ParseBody(src, first, kind, depth).Some?
    ensures var body := ParseBody(src, first, kind, depth).value;
      match NormalSlots(body.slots)
      case None => g.closer.None?
      case Some(ns) => g.closer == Some(body.end) && Holds(g, kind, ns, body.seps, out)
    decreases |src| - first, 3
  {
    ghost var body := ParseBody(src, first, kind, depth).value;
    g := Gathered(None, out, [], []);
    var pos := first;
    ghost var done: nat := 0;
    ghost var ns: seq<Slot> := [];
    StartBody(src, first, kind, depth, out);
    hide ParseBody, NormalSlots, Holds, Midway;
    while true
      invariant first <= pos <= |src|
      invariant Midway(src, pos, kind, depth, body, done, ns, g, out)
      decreases |src| - pos
    {
      var ok, last, next, g', t := EmitNext(src, pos, kind, depth, body, done, ns, g, out);
      if !ok {
        return g.(closer := None);
      }
      if last {
        HoldsAnyCloser(g', kind, ns + [t], body.seps, out, Some(next));
        return g'.(closer := Some(next));
      }
      done, ns, g, pos := done + 1, ns + [t], g', next;
    }
  }

  /** One turn of the slot loop. */
  method EmitNext(src: string, pos: nat, kind: Kind, ghost depth: nat,
                  ghost body: ParsedBody, ghost done: nat, ghost ns: seq<Slot>, g: Gathered, ghost out: string)
    returns (ok: bool, last: bool, next: nat, g': Gathered, ghost t: Slot)
    requires pos <= |src| && Midway(src, pos, kind, depth, body, done, ns, g, out)
    ensures !ok ==> NormalSlots(body.slots).None?
    ensures ok && last ==>
      next == body.end && NormalSlots(body.slots) == Some(ns + [t]) && Holds(g', kind, ns + [t], body.seps, out)
    ensures ok && !last ==>
      pos < next <= |src| && Midway(src, next, kind, depth, body, done + 1, ns + [t], g', out)
    decreases |src| - pos, 2
  {
    hide ParseBody, SlotAt, SkipBlanks, NormalSlots, Normal, Holds, Midway, Print, KeyOf, Close;
    MidwaySlot(src, pos, kind, depth, body, done, ns, g, out);
    SlotFacts(src, pos, kind, depth);
    ghost var r := SlotAt(src, pos, kind, depth);
    var end, key, written := EmitSlot(src, pos, kind, depth, g.out);
    ok, last, next, g', t := end.Some?, false, pos, g, r.slot;
    if ok {
      last, next := SeparatorEnd(src, end.value, kind);
      t := Slot(r.slot.name, r.slot.colon, Normal(r.slot.value).value);
      SameNameSameKey(r.slot, t);
      g' := AddSlot(g, kind, key, written, src[end.value..next], ns, body.seps[..done], out, t);
      MidwayStep(src, pos, kind, depth, body, done, ns, g, out, t, g');
    }
  }

  /** The blanks after a value, then the closer, or a comma and the blanks after it. */
  method SeparatorEnd(src: string, valueEnd: nat, kind: Kind) returns (last: bool, next: nat)
    requires SkipBlanks(src, valueEnd) < |src|
    ensures var after := SkipBlanks(src, valueEnd);
      && last == (src[after] == Close(kind))
      && next == if last then after else SkipBlanks(src, after + 1)
  {
    next := SkipBlanksFrom(src, valueEnd);
    last := src[next] == Close(kind);
    if !last {
      next := SkipBlanksFrom(src, next + 1);
    }
  }

  /** Keeping one slot: a member and its separator are gathered, an element is already in `written`. */
  method AddSlot(g: Gathered, kind: Kind, key: string, written: string, sep: string,
                 ghost ns: seq<Slot>, ghost seps: seq<string>, ghost out: string, ghost t: Slot)
    returns (g': Gathered)
    requires Holds(g, kind, ns, seps, out)
    requires if kind == ObjectKind then key == KeyOf(t) && written == t.name + t.colon + Print(t.value)
             else t.name == "" && t.colon == "" && written == g.out + Print(t.value)
    ensures Holds(g', kind, ns + [t], seps + [sep], out)
  {
    hide Holds, Print, KeyOf;
    if kind == ObjectKind {
      HoldsMoreMember(g, ns, seps, out, t, sep);
      g' := g.(members := g.members + [Keyed(key, written)], separators := g.separators + [sep]);
    } else {
      HoldsMoreItem(g, ns, seps, out, t, sep);
      g' := g.(out := written + sep);
    }
  }

  lemma {:induction false} HoldsAnyCloser(g: Gathered, kind: Kind, ns: seq<Slot>, seps: seq<string>, out: string, closer: Option<nat>)
    requires Holds(g, kind, ns, seps, out)
    ensures Holds(g.(closer := closer), kind, ns, seps, out)
  {
  }

  lemma {:induction false} StartBody(src: string, first: nat, kind: Kind, depth: nat, out: string)
    requires first <= |src| && ParseBody(src, first, kind, depth).Some?
    ensures var body := ParseBody(src, first, kind, depth).value;
      Midway(src, first, kind, depth, body, 0, [], Gathered(None, out, [], []), out)
  {
    var body := ParseBody(src, first, kind, depth).value;
    hide ParseBody;
    assert body.slots[0..] == body.slots && body.seps[0..] == body.seps;
    assert out + "" == out;
  }

  /** One slot: a member's key and text, or an element written after `out`. */
  method EmitSlot(src: string, pos: nat, kind: Kind, ghost depth: nat, out: string)
    returns (end: Option<nat>, key: string, written: string)
    requires pos <= |src| && ParseBody(src, pos, kind, depth).Some?
    ensures var r := SlotAt(src, pos, kind, depth);
      && (kind == ArrayKind ==> r.slot.name == "" && r.slot.colon == "")
      && (kind == ObjectKind ==> key == KeyOf(r.slot))
      && Emitted(r.slot.value, r.valueEnd, if kind == ObjectKind then r.slot.name + r.slot.colon else out, end, written)
    decreases |src| - pos, 1
  {
    BodyUnfolds(src, pos, kind, depth);
    ghost var head := ParseHead(src, pos, kind).value;
    ghost var value := ParseValue(src, head.valueAt, depth + 1).value.value;
    HeadSound(src, pos, kind, value);
    assert SlotAt(src, pos, kind, depth).slot == Slot(head.name, head.colon, value);
    assert SlotAt(src, pos, kind, depth).valueEnd == ParseValue(src, head.valueAt, depth + 1).value.end;
    hide SlotAt, ParseBody, ParseValue, Emitted, Normal, Print, StringText, Around, KeyOf;
    key := "";
    var valueAt := pos;
    var sink := out;
    if kind == ObjectKind {
      key, sink, valueAt := MemberText(src, pos, value);
    }
    end, written := Emit(src, valueAt, depth + 1, sink);
  }

  /** A member's key, and its text up to its value. */
  method MemberText(src: string, pos: nat, ghost value: Value) returns (key: string, text: string, valueAt: nat)
    requires pos <= |src| && ParseHead(src, pos, ObjectKind).Some?
    requires StringText(ParseHead(src, pos, ObjectKind).value.name)
    ensures var head := ParseHead(src, pos, ObjectKind).value;
      valueAt == head.valueAt && text == head.name + head.colon && key == KeyOf(Slot(head.name, head.colon, value))
  {
    hide SkipBlanks, StringEnd, StringText, JsonNames.Unescaped;
    var nameEnd := ScanString(src, pos);
    key := JsonNames.UnescapedBytes(src[pos..nameEnd.value]);
    var colonAt := SkipBlanksFrom(src, nameEnd.value);
    valueAt := SkipBlanksFrom(src, colonAt + 1);
    text := src[pos..valueAt];
    assert src[pos..valueAt] == src[pos..nameEnd.value] + src[nameEnd.value..valueAt];
  }

  /** Reading `v` up to `valueEnd`, `emit` wrote its normal form after `out`, or refused it. */
  ghost predicate Emitted(v: Value, valueEnd: nat, out: string, end: Option<nat>, written: string) {
    match Normal(v)
    case None => end.None?
    case Some(n) => end == Some(valueEnd) && written == out + Print(n)
  }

  /** `emit`: appends the value with every object's members in name order; nothing when an object
      repeats a name. It ends exactly where the recogniser did. */
  method Emit(src: string, pos: nat, ghost depth: nat, out: string) returns (end: Option<nat>, written: string)
    requires pos <= |src| && ParseValue(src, pos, depth).Some?
    ensures var p := ParseValue(src, pos, depth).value; Emitted(p.value, p.end, out, end, written)
    decreases |src| - pos, 0
  {
    ghost var p := ParseValue(src, pos, depth).value;
    var open := src[pos];
    if open != '{' && open != '[' {
      end, written := EmitScalar(src, pos, depth, out);
    } else {
      ContainerRead(src, pos, depth);
      hide ParseValue, ParseBody, SkipBlanks, Emitted, Normal, Print, NormalSlots, PrintBody;
      var kind := if open == '{' then ObjectKind else ArrayKind;
      var first := SkipBlanksFrom(src, pos + 1);
      if src[first] == Close(kind) {
        end, written := EmitEmpty(kind, src[pos + 1..first], first + 1, out, p);
      } else {
        end, written := EmitContainer(src, first, kind, src[pos + 1..first], depth, out, p);
      }
    }
  }

  method EmitScalar(src: string, pos: nat, ghost depth: nat, out: string) returns (end: Option<nat>, written: string)
    requires pos < |src| && src[pos] != '{' && src[pos] != '[' && ParseValue(src, pos, depth).Some?
    ensures var p := ParseValue(src, pos, depth).value; Emitted(p.value, p.end, out, end, written)
  {
    ScalarRead(src, pos, depth);
    hide ParseValue, Normal, Print;
    end := ValueEnd(src, pos, MAX_DEPTH);
    written := out + src[pos..end.value];
  }

  method EmitEmpty(kind: Kind, lead: string, valueEnd: nat, out: string, ghost p: Parsed) returns (end: Option<nat>, written: string)
    requires p == Parsed(Node(kind, lead, [], []), valueEnd)
    ensures Emitted(p.value, p.end, out, end, written)
  {
    EmptyNode(kind, lead);
    hide Normal, Print;
    written := out + ([Open(kind)] + (lead + [Close(kind)]));
    end := Some(valueEnd);
  }

  /** The container whose first slot stands at `first`, behind its bracket and `lead`. */
  method EmitContainer(src: string, first: nat, kind: Kind, lead: string, ghost depth: nat, out: string, ghost p: Parsed)
    returns (end: Option<nat>, written: string)
    requires first <= |src| && ParseBody(src, first, kind, depth).Some?
    requires var body := ParseBody(src, first, kind, depth).value;
      p == Parsed(Node(kind, lead, body.slots, body.seps), body.end + 1)
    ensures Emitted(p.value, p.end, out, end, written)
    decreases |src| - first, 4
  {
    hide ParseBody, Emitted, NormalSlots, Arranged, Holds, Print;
    ghost var body := ParseBody(src, first, kind, depth).value;
    var g := EmitSlots(src, first, kind, depth, out + ([Open(kind)] + lead));
    end, written := None, "";
    if g.closer.Some? {
      var done, text := Arrange(kind, lead, g, NormalSlots(body.slots).value, body.seps, out + ([Open(kind)] + lead), out);
      if done {
        end, written := Some(g.closer.value + 1), text + [Close(kind)];
      }
    }
    NodeEmitted(kind, lead, body.slots, body.seps, body.end + 1, out, end, written, p);
  }

  lemma {:induction false} NodeEmitted(kind: Kind, lead: string, slots: seq<Slot>, seps: seq<string>, valueEnd: nat,
                                       out: string, end: Option<nat>, written: string, p: Parsed)
    requires p == Parsed(Node(kind, lead, slots, seps), valueEnd)
    requires match NormalSlots(slots)
             case None => end.None?
             case Some(ns) =>
               match Arranged(kind, lead, ns, seps)
               case None => end.None?
               case Some(n) => end == Some(valueEnd) && written == out + Print(n)
    ensures Emitted(p.value, p.end, out, end, written)
  {
    hide NormalSlots, Arranged, Print;
  }

  /** The last step of a container: an array is already written; an object's members are sorted,
      refused when a name repeats, and written between the separators in place. */
  method Arrange(kind: Kind, ghost lead: string, g: Gathered, ghost ns: seq<Slot>, ghost seps: seq<string>, ghost out: string, ghost head: string)
    returns (ok: bool, written: string)
    requires Holds(g, kind, ns, seps, out) && out == head + ([Open(kind)] + lead)
    ensures ok <==> Arranged(kind, lead, ns, seps).Some?
    ensures ok ==> written + [Close(kind)] == head + Print(Arranged(kind, lead, ns, seps).value)
  {
    hide Keys, Texts, Joined, PrintBody, SortByKey, AdjacentRepeat;
    if kind == ArrayKind {
      ArrangedArray(lead, ns, seps);
      Rebracket(head, Open(kind), lead, PrintBody(ns, seps), Close(kind));
      return true, g.out;
    }
    ObjectNormal(lead, ns, seps);
    var sorted := SortByKey(g.members);
    if AdjacentRepeat(sorted) {
      return false, "";
    }
    written := JoinTexts(g.out, sorted, g.separators);
    Rebracket(head, Open(kind), lead, Joined(sorted, seps), Close(kind));
    ok := true;
  }

  /** The writing loop: the i-th smallest member, then the i-th separator of the source. */
  method JoinTexts(out: string, texts: seq<Keyed<string>>, seps: seq<string>) returns (written: string)
    requires |texts| == |seps|
    ensures written == out + Joined(texts, seps)
  {
    hide Joined;
    written := out;
    var idx := 0;
    JoinedNothing(written, texts, seps);
    while idx < |texts|
      invariant idx <= |texts|
      invariant out + Joined(texts, seps) == written + Joined(texts[idx..], seps[idx..])
    {
      JoinedTurn(texts, seps, idx);
      written := written + texts[idx].item;
      written := written + seps[idx];
      idx := idx + 1;
    }
    JoinedNothing(written, texts, seps);
  }

  lemma {:induction false} JoinedNothing(written: string, texts: seq<Keyed<string>>, seps: seq<string>)
    ensures texts[0..] == texts && seps[0..] == seps
    ensures Joined([], seps) == "" && written + "" == written
    ensures |texts| == |seps| ==> Joined(texts[|texts|..], seps[|seps|..]) == ""
  {
  }

  lemma {:induction false} Rebracket(head: string, open: char, lead: string, body: string, close: char)
    ensures (head + ([open] + lead)) + body + [close] == head + ([open] + (lead + (body + [close])))
  {
  }

  /** What was read at a byte that opens no container. */
  lemma {:induction false} ScalarRead(src: string, pos: nat, depth: nat)
    requires pos < |src| && src[pos] != '{' && src[pos] != '[' && ParseValue(src, pos, depth).Some?
    ensures var p := ParseValue(src, pos, depth).value;
      && ParseValue(src, pos, MAX_DEPTH) == Some(p) && p.value == Scalar(src[pos..p.end])
      && Normal(p.value) == Some(p.value) && Print(p.value) == src[pos..p.end]
  {
  }

  /** What was read at a byte that opens a container. */
  lemma {:induction false} ContainerRead(src: string, pos: nat, depth: nat)
    requires pos < |src| && (src[pos] == '{' || src[pos] == '[') && ParseValue(src, pos, depth).Some?
    ensures var p := ParseValue(src, pos, depth).value;
      && var kind := if src[pos] == '{' then ObjectKind else ArrayKind;
      && var first := SkipBlanks(src, pos + 1);
      && first < |src| && src[pos] == Open(kind)
      && var lead := src[pos + 1..first];
      && if src[first] == Close(kind) then p == Parsed(Node(kind, lead, [], []), first + 1)
         else
           && ParseBody(src, first, kind, depth).Some?
           && var body := ParseBody(src, first, kind, depth).value;
           && p == Parsed(Node(kind, lead, body.slots, body.seps), body.end + 1)
  {
    var first := SkipBlanks(src, pos + 1);
    if first == |src| {
      var kind := if src[pos] == '{' then ObjectKind else ArrayKind;
      EndsEarly(src, first, kind, depth);
    }
    hide ParseBody, SkipBlanks;
  }

  lemma {:induction false} EndsEarly(src: string, pos: nat, kind: Kind, depth: nat)
    requires pos == |src|
    ensures ParseBody(src, pos, kind, depth).None?
  {
  }

  lemma {:induction false} JoinedTurn(texts: seq<Keyed<string>>, seps: seq<string>, idx: nat)
    requires idx < |texts| == |seps|
    ensures Joined(texts[idx..], seps[idx..]) == texts[idx].item + (seps[idx] + Joined(texts[idx + 1..], seps[idx + 1..]))
  {
    assert texts[idx..][1..] == texts[idx + 1..] && seps[idx..][1..] == seps[idx + 1..];
  }

  lemma {:induction false} EmptyNode(kind: Kind, lead: string)
    ensures Normal(Node(kind, lead, [], [])) == Some(Node(kind, lead, [], []))
    ensures Print(Node(kind, lead, [], [])) == [Open(kind)] + (lead + [Close(kind)])
  {
    assert [Open(kind)] + (lead + ("" + [Close(kind)])) == [Open(kind)] + (lead + [Close(kind)]);
  }

  /** An object is written as its sorted texts joined by the separators in place. */
  lemma {:induction false} ObjectNormal(lead: string, ns: seq<Slot>, seps: seq<string>)
    ensures var sorted := SortByKey(Texts(Keys(ns)));
      match Arranged(ObjectKind, lead, ns, seps)
      case None => AdjacentRepeat(sorted)
      case Some(n) =>
        && !AdjacentRepeat(sorted) && |sorted| == |ns|
        && Print(n) == [Open(ObjectKind)] + (lead + (Joined(sorted, seps) + [Close(ObjectKind)]))
  {
    hide Keys, Texts, SortByKey, Joined, PrintBody, AdjacentRepeat;
    SortTexts(Keys(ns));
    SortTexts(SortByKey(Keys(ns)));
    JoinedIsBody(SortByKey(Keys(ns)), seps);
  }

  lemma {:induction false} PrintedDocument(d: Document)
    ensures (d.before + Print(d.value)) + d.after == PrintDocument(d)
  {
    hide Print;
  }

  /** `json_member_order`: the rewritten line, when the line is one document that repeats no name and
      is not in order already. */
  method JsonMemberOrder(content: string) returns (changed: bool, out: string)
    ensures changed == MemberOrder(content).Some?
    ensures changed ==> out == MemberOrder(content).value
  {
    var first := SkipBlanksFrom(content, 0);
    if first >= |content| || (content[first] != '{' && content[first] != '[') {
      return false, "";
    }
    hide ParseValue, SkipBlanks, Normal, Print;
    var end := ValueEnd(content, first, 0);
    if end.None? {
      return false, "";
    }
    var rest := SkipBlanksFrom(content, end.value);
    if rest != |content| {
      return false, "";
    }
    var emitted, written := Emit(content, first, 0, content[..first]);
    if emitted.None? {
      return false, "";
    }
    out := written + content[end.value..];
    ghost var d := Document(content[..first], Normal(ParseValue(content, first, 0).value.value).value, content[end.value..]);
    PrintedDocument(d);
    changed := out != content;
  }
}
