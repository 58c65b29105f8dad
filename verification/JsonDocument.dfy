/**
 Whole lines: a JSON object or array with blanks around it, and its member-order normal form
 (`json_member_order` in core/src/mask/mask.cpp) as a function of the line.
 */
module JsonDocument {
  import opened Wrappers
  import opened Text
  import opened JsonGrammar
  import opened JsonTree
  import opened JsonOrder

  datatype Document = Document(before: string, value: Value, after: string)

  function PrintDocument(d: Document): string {
    d.before + (Print(d.value) + d.after)
  }

  ghost predicate WfDocument(d: Document) {
    AllBlank(d.before) && AllBlank(d.after) && d.value.Node? && Wf(d.value, 0)
  }

  /** `content`, whole, as one object or array with blanks around it. */
  function ReadDocument(content: string): Option<Document> {
    var first := SkipBlanks(content, 0);
    if first >= |content| || (content[first] != '{' && content[first] != '[') then None
    else
      match ParseValue(content, first, 0)
      case None => None
      case Some(p) =>
        if SkipBlanks(content, p.end) != |content| then None
        else Some(Document(content[..first], p.value, content[p.end..]))
  }

  lemma {:induction false} ReadSound(content: string)
    requires ReadDocument(content).Some?
    ensures WfDocument(ReadDocument(content).value)
    ensures PrintDocument(ReadDocument(content).value) == content
  {
    hide Wf, Print, ParseValue, At, ParseBody, Blank;
    var first := SkipBlanks(content, 0);
    ContainerIsNode(content, first);
    var p := ParseValue(content, first, 0).value;
    ParseSound(content, first, 0);
    AtIsSlice(content, first, Print(p.value));
    assert content[0..first] == content[..first] && content[p.end..|content|] == content[p.end..];
    hide SkipBlanks, AllBlank;
    Reassemble(content, first, p.end, Print(p.value));
  }

  lemma {:induction false} ContainerIsNode(content: string, first: nat)
    requires first < |content| && (content[first] == '{' || content[first] == '[')
    requires ParseValue(content, first, 0).Some?
    ensures ParseValue(content, first, 0).value.value.Node?
  {
    hide ParseBody, SkipBlanks;
  }

  lemma {:induction false} Reassemble(content: string, a: nat, b: nat, text: string)
    requires a <= b <= |content| && content[a..b] == text
    ensures content[..a] + (text + content[b..]) == content
  {
  }

  lemma {:induction false} PlaceDocument(d: Document)
    ensures At(PrintDocument(d), 0, d.before)
    ensures At(PrintDocument(d), |d.before|, Print(d.value))
    ensures At(PrintDocument(d), |d.before| + |Print(d.value)|, d.after)
  {
    var content := PrintDocument(d);
    assert content[0..|content|] == content;
    assert At(content, 0, content);
    hide At;
    AtConcat(content, 0, d.before, Print(d.value) + d.after);
    AtConcat(content, |d.before|, Print(d.value), d.after);
  }

  lemma {:induction false} NodeHead(v: Value)
    requires v.Node?
    ensures Print(v) != "" && (Print(v)[0] == '{' || Print(v)[0] == '[')
  {
  }

  /** Every document is read back from its text. */
  lemma {:induction false} ReadComplete(d: Document)
    requires WfDocument(d)
    ensures ReadDocument(PrintDocument(d)) == Some(d)
  {
    var content, first := PrintDocument(d), |d.before|;
    PlaceDocument(d);
    NodeHead(d.value);
    ReadPlaced(content, d, first);
  }

  lemma {:induction false} ReadPlaced(content: string, d: Document, first: nat)
    requires WfDocument(d) && first == |d.before| && |content| == first + |Print(d.value)| + |d.after|
    requires At(content, 0, d.before) && At(content, first, Print(d.value)) && At(content, first + |Print(d.value)|, d.after)
    requires Print(d.value) != "" && (Print(d.value)[0] == '{' || Print(d.value)[0] == '[')
    ensures ReadDocument(content) == Some(d)
  {
    hide At, Wf, Print, SkipBlanks, ParseValue;
    AtHead(content, first, Print(d.value));
    SkipBlanksExact(content, 0, d.before);
    ParseComplete(content, first, d.value, 0);
    SkipBlanksExact(content, first + |Print(d.value)|, d.after);
    AtIsSlice(content, 0, d.before);
    AtIsSlice(content, first + |Print(d.value)|, d.after);
    Ends(content, first, first + |Print(d.value)|);
  }

  lemma {:induction false} Ends(content: string, first: nat, end: nat)
    requires first <= end <= |content|
    ensures content[0..first] == content[..first] && content[end..|content|] == content[end..]
  {
  }

  // ----- how deep a line may nest -----

  /** `n` arrays, one inside the other. */
  function Nested(n: nat): Value
    requires n > 0
  {
    if n == 1 then Node(ArrayKind, "", [], []) else Node(ArrayKind, "", [Slot("", "", Nested(n - 1))], [""])
  }

  function Brackets(n: nat): string {
    if n == 0 then "" else "[" + (Brackets(n - 1) + "]")
  }

  lemma {:induction false} NestedPrints(n: nat)
    requires n > 0
    ensures Print(Nested(n)) == Brackets(n)
  {
    if n == 1 {
      assert Print(Nested(1)) == "[" + ("" + ("" + "]"));
    } else {
      NestedPrints(n - 1);
      OneSlot(Nested(n - 1));
      var inner := Print(Nested(n - 1));
      assert "" + (inner + "]") == inner + "]";
    }
  }

  lemma {:induction false} OneSlot(v: Value)
    ensures PrintBody([Slot("", "", v)], [""]) == Print(v)
  {
    hide Print;
    assert PrintBody([Slot("", "", v)], [""]) == ("" + ("" + Print(v))) + ("" + "");
  }

  lemma {:induction false} NestedWf(n: nat, depth: nat)
    requires n > 0 && depth + n <= 128
    ensures Wf(Nested(n), depth)
  {
    if n > 1 {
      NestedWf(n - 1, depth + 1);
      assert WfSeps([""]);
    }
  }

  predicate OpensWith(text: string, n: nat) {
    n <= |text| && forall i :: 0 <= i < n ==> text[i] == '['
  }

  /** A value that opens with `n` brackets nests at least so deep. */
  lemma {:induction false} OpensDeep(v: Value, depth: nat, n: nat)
    requires Wf(v, depth) && n > 0 && OpensWith(Print(v), n)
    ensures depth + n <= 128
    decreases v
  {
    hide WfSeps, ScalarText, Print, OpensWith, WfHead, AllBlank;
    match v
    case Scalar(text) =>
      ScalarOpens(text, n);
    case Node(kind, lead, slots, seps) =>
      if n > 1 {
        if slots != [] {
          OtherByte(slots[0].value, depth + 1);
        }
        FirstInside(kind, lead, slots, seps, n);
        OpensDeep(slots[0].value, depth + 1, n - 1);
      }
  }

  lemma {:induction false} ScalarOpens(text: string, n: nat)
    requires ScalarText(text) && n > 0
    ensures !OpensWith(Print(Scalar(text)), n) && OtherThanOpen(Print(Scalar(text)), 0)
  {
    hide ScalarText;
    ScalarTextHead(text);
  }

  predicate OtherThanOpen(text: string, k: nat) {
    k < |text| && text[k] != '['
  }

  lemma {:induction false} OtherByte(v: Value, depth: nat)
    requires Wf(v, depth)
    ensures exists k: nat :: OtherThanOpen(Print(v), k)
  {
    hide WfSeps, ScalarText, WfHead, AllBlank, PrintBody;
    match v
    case Scalar(text) =>
      ScalarOpens(text, 1);
    case Node(kind, lead, slots, seps) =>
      assert OtherThanOpen(Print(v), |Print(v)| - 1);
  }

  lemma {:induction false} FirstInside(kind: Kind, lead: string, slots: seq<Slot>, seps: seq<string>, n: nat)
    requires AllBlank(lead) && |slots| == |seps| && 1 < n && forall i :: 0 <= i < |slots| ==> WfHead(slots[i], kind)
    requires OpensWith(Print(Node(kind, lead, slots, seps)), n)
    requires slots != [] ==> exists k: nat :: OtherThanOpen(Print(slots[0].value), k)
    ensures slots != [] && OpensWith(Print(slots[0].value), n - 1)
  {
    var body := PrintBody(slots, seps);
    var text := Print(Node(kind, lead, slots, seps));
    assert text == [Open(kind)] + (lead + (body + [Close(kind)])) && text[1] == '[';
    assert text[1..] == lead + (body + [Close(kind)]);
    NoLeadingBlank(lead, body + [Close(kind)]);
    assert text == [Open(kind)] + (body + [Close(kind)]) && text[0] == Open(kind);
    assert slots != [];
    assert forall i :: 0 <= i < |body| ==> body[i] == text[i + 1];
    BodyOpens(slots, seps, n - 1, body);
  }

  lemma {:induction false} NoLeadingBlank(b: string, rest: string)
    requires AllBlank(b) && b + rest != "" && (b + rest)[0] == '['
    ensures b == ""
  {
  }

  lemma {:induction false} NoTrailingBlank(head: string, b: string)
    requires AllBlank(b) && head + b != "" && (head + b)[|head + b| - 1] == ']'
    ensures b == ""
  {
  }

  lemma {:induction false} BodyOpens(slots: seq<Slot>, seps: seq<string>, n: nat, body: string)
    requires slots != [] && |slots| == |seps| && slots[0].name == "" && slots[0].colon == "" && body == PrintBody(slots, seps)
    requires forall i :: 0 <= i < n && i < |body| ==> body[i] == '['
    requires exists k: nat :: OtherThanOpen(Print(slots[0].value), k)
    ensures OpensWith(Print(slots[0].value), n)
  {
    hide Print;
    var inner := Print(slots[0].value);
    assert SlotText(slots[0]) == inner;
    assert forall i :: 0 <= i < |inner| ==> body[i] == inner[i];
    var k: nat :| OtherThanOpen(inner, k);
    assert body[k] != '[';
  }

  /** `n` brackets inside each other are read if and only if they are at most 128. */
  lemma {:induction false} NestedExactly(n: nat)
    requires n > 0
    ensures ReadDocument(Brackets(n)).Some? <==> n <= 128
  {
    hide ReadDocument, Wf, AllBlank;
    var text := Brackets(n);
    NestedPrints(n);
    if n <= 128 {
      NestedWf(n, 0);
      var d := Document("", Nested(n), "");
      NoBlanks();
      assert PrintDocument(d) == text;
      ReadComplete(d);
    }
    if ReadDocument(text).Some? {
      ReadSound(text);
      BracketsOpen(n);
      NothingAround(ReadDocument(text).value, text, n);
      OpensDeep(ReadDocument(text).value.value, 0, n);
    }
  }

  lemma {:induction false} NoBlanks()
    ensures AllBlank("")
  {
  }

  lemma {:induction false} BracketsOpen(n: nat)
    ensures |Brackets(n)| == 2 * n && OpensWith(Brackets(n), n)
    ensures forall i :: n <= i < 2 * n ==> Brackets(n)[i] == ']'
  {
    if n > 0 {
      BracketsOpen(n - 1);
    }
  }

  /** Brackets alone leave no room for blanks. */
  lemma {:induction false} NothingAround(d: Document, text: string, n: nat)
    requires WfDocument(d) && PrintDocument(d) == text && n > 0 && |text| == 2 * n && OpensWith(text, n)
    requires forall i :: n <= i < 2 * n ==> text[i] == ']'
    ensures Print(d.value) == text
  {
    hide Wf, Print, AllBlank;
    var inner := Print(d.value);
    assert text == (d.before + inner) + d.after;
    NoLeadingBlank(d.before, inner + d.after);
    NoTrailingBlank(d.before + inner, d.after);
    assert "" + (inner + "") == inner;
  }

  /** What `json_member_order` reports: the rewritten line, or nothing when it leaves the line be. */
  function MemberOrder(content: string): Option<string> {
    match ReadDocument(content)
    case None => None
    case Some(d) =>
      match Normal(d.value)
      case None => None
      case Some(n) =>
        var out := PrintDocument(Document(d.before, n, d.after));
        if out == content then None else Some(out)
  }

  /** The line the masker goes on with. */
  function Canonical(content: string): string {
    match MemberOrder(content)
    case None => content
    case Some(out) => out
  }

  lemma {:induction false} NormalDocument(d: Document)
    requires WfDocument(d) && Normal(d.value).Some?
    ensures WfDocument(Document(d.before, Normal(d.value).value, d.after))
  {
    hide Wf;
    NormalIsOrdered(d.value, 0);
  }

  lemma {:induction false} DocumentBag(d: Document)
    ensures multiset(PrintDocument(d)) == multiset(d.before) + multiset(Print(d.value)) + multiset(d.after)
  {
    hide Print;
  }

  /** A line is rewritten exactly when it is a document that repeats no name and is out of order. */
  lemma {:induction false} RewrittenExactlyWhen(content: string)
    ensures MemberOrder(content).Some? <==>
      var r := ReadDocument(content);
      r.Some? && Unique(r.value.value) && !NamesAscend(r.value.value)
  {
    hide ReadDocument, PrintDocument, Normal, Unique, Ordered, NamesAscend, Wf;
    if ReadDocument(content).Some? {
      var d := ReadDocument(content).value;
      ReadSound(content);
      OrderedIsByteOrder(d.value);
      NormalExists(d.value);
      if Ordered(d.value) {
        OrderedIsNormal(d.value);
        assert Document(d.before, d.value, d.after) == d;
      }
      if Normal(d.value).Some? {
        var n := Document(d.before, Normal(d.value).value, d.after);
        NormalDocument(d);
        NormalIsOrdered(d.value, 0);
        ReadComplete(n);
      }
    }
  }

  /** The rewritten line: the same bytes, again one document, of the same JSON value, every object in
      strict name order, and rewriting it again reports no change. */
  lemma {:induction false} RewrittenLine(content: string)
    requires MemberOrder(content).Some?
    ensures var out := MemberOrder(content).value;
      && ReadDocument(content).Some? && ReadDocument(out).Some?
      && var d, n := ReadDocument(content).value, ReadDocument(out).value;
      && |out| == |content| && multiset(out) == multiset(content)
      && n.before == d.before && n.after == d.after
      && Wf(n.value, 0) && NamesAscend(n.value) && Denote(n.value) == Denote(d.value)
      && MemberOrder(out) == None
  {
    hide ReadDocument, PrintDocument, Normal, Ordered, NamesAscend, Wf, Denote;
    var out := MemberOrder(content).value;
    var d := ReadDocument(content).value;
    ReadSound(content);
    var n := Document(d.before, Normal(d.value).value, d.after);
    NormalDocument(d);
    NormalIsOrdered(d.value, 0);
    NormalKeepsBytes(d.value, 0);
    NormalKeepsMeaning(d.value);
    ReadComplete(n);
    DocumentBag(d);
    DocumentBag(n);
    assert |multiset(out)| == |out| && |multiset(content)| == |content|;
    OrderedIsByteOrder(n.value);
    OrderedIsNormal(n.value);
    assert Document(n.before, n.value, n.after) == n;
  }

  /** Same blanks around, and values that differ only by permuting members. */
  ghost predicate SameUpToMemberOrder(d: Document, e: Document) {
    d.before == e.before && d.after == e.after && Equivalent(d.value, e.value)
  }

  lemma {:induction false} CanonicalIs(content: string)
    requires ReadDocument(content).Some? && Unique(ReadDocument(content).value.value)
    ensures var d := ReadDocument(content).value;
      && Normal(d.value).Some?
      && var n := Document(d.before, Normal(d.value).value, d.after);
      && Canonical(content) == PrintDocument(n) && ReadDocument(Canonical(content)) == Some(n)
  {
    hide ReadDocument, PrintDocument, Normal, Unique, Wf;
    var d := ReadDocument(content).value;
    ReadSound(content);
    NormalExists(d.value);
    NormalDocument(d);
    ReadComplete(Document(d.before, Normal(d.value).value, d.after));
  }

  /** Two documents that repeat no name have the same normal form, byte for byte, exactly when they
      differ only by permuting the members of their objects. */
  lemma {:induction false} NormalFormDecidesMemberOrder(a: string, b: string)
    requires ReadDocument(a).Some? && Unique(ReadDocument(a).value.value)
    requires ReadDocument(b).Some? && Unique(ReadDocument(b).value.value)
    ensures Canonical(a) == Canonical(b) <==> SameUpToMemberOrder(ReadDocument(a).value, ReadDocument(b).value)
  {
    hide ReadDocument, PrintDocument, Normal, Unique, Canonical, Equivalent;
    CanonicalIs(a);
    CanonicalIs(b);
    var d, e := ReadDocument(a).value, ReadDocument(b).value;
    if Canonical(a) == Canonical(b) {
      SharedNormalForm(d.value, e.value);
    }
    if SameUpToMemberOrder(d, e) {
      Confluence(d.value, e.value);
    }
  }
}
