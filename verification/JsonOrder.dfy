/**
 The JSON member-order normal form (`json_order::emit`, `json_member_order` in
 core/src/mask/mask.cpp) on concrete syntax trees: members of every object permuted into ascending
 order of their unescaped names, separators and array elements left where they are.

 Proved: it exists exactly for trees whose objects repeat no name; it is again a well-formed tree
 of the same bytes denoting the same JSON value; it is a fixed point; and two trees share it exactly
 when they differ by permuting members alone.
 */
module JsonOrder {
  import opened Wrappers
  import opened Text
  import opened KeySort
  import opened JsonGrammar
  import opened JsonTree
  import JsonNames

  // ----- the normal form -----

  /** The bytes a member sorts by. In every tree that was read, a member's name is a string. */
  function KeyOf(s: Slot): string {
    if StringText(s.name) then JsonNames.Unescaped(s.name) else s.name
  }

  function Keys(slots: seq<Slot>): (r: seq<Keyed<Slot>>)
    ensures |r| == |slots|
    ensures forall i :: 0 <= i < |slots| ==> r[i] == Keyed(KeyOf(slots[i]), slots[i])
  {
    if slots == [] then [] else [Keyed(KeyOf(slots[0]), slots[0])] + Keys(slots[1..])
  }

  function Normal(v: Value): (r: Option<Value>)
    ensures r.Some? ==> r.value.Node? == v.Node?
    decreases v
  {
    match v
    case Scalar(_) => Some(v)
    case Node(kind, lead, slots, seps) =>
      match NormalSlots(slots)
      case None => None
      case Some(ns) => Arranged(kind, lead, ns, seps)
  }

  /** What becomes of a container once its slots are normal. */
  function Arranged(kind: Kind, lead: string, ns: seq<Slot>, seps: seq<string>): (r: Option<Value>)
    ensures r.Some? ==> r.value.Node?
  {
    if kind.ArrayKind? then Some(Node(kind, lead, ns, seps))
    else
      var sorted := SortByKey(Keys(ns));
      if AdjacentRepeat(sorted) then None else Some(Node(kind, lead, Items(sorted), seps))
  }

  function NormalSlots(slots: seq<Slot>): (r: Option<seq<Slot>>)
    decreases slots
  {
    if slots == [] then Some([])
    else
      match Normal(slots[0].value)
      case None => None
      case Some(n) =>
        match NormalSlots(slots[1..])
        case None => None
        case Some(rest) => Some([Slot(slots[0].name, slots[0].colon, n)] + rest)
  }

  /** Slot by slot: what `NormalSlots` is made of. */
  lemma {:induction false} NormalSlotsAt(slots: seq<Slot>)
    ensures NormalSlots(slots).Some? <==> forall i :: 0 <= i < |slots| ==> Normal(slots[i].value).Some?
    ensures NormalSlots(slots).Some? ==>
      var ns := NormalSlots(slots).value;
      |ns| == |slots| && forall i :: 0 <= i < |slots| ==>
        Normal(slots[i].value).Some? && ns[i] == Slot(slots[i].name, slots[i].colon, Normal(slots[i].value).value)
  {
    hide Normal;
    if slots != [] {
      NormalSlotsAt(slots[1..]);
      forall i | 0 < i < |slots| ensures slots[i] == slots[1..][i - 1] {
      }
    }
  }

  lemma {:induction false} NormalSlotsIs(slots: seq<Slot>, ns: seq<Slot>)
    requires |ns| == |slots|
    requires forall i :: 0 <= i < |slots| ==>
      Normal(slots[i].value).Some? && ns[i] == Slot(slots[i].name, slots[i].colon, Normal(slots[i].value).value)
    ensures NormalSlots(slots) == Some(ns)
  {
    hide Normal;
    NormalSlotsAt(slots);
    assert NormalSlots(slots).value == ns;
  }

  // ----- uniqueness and order of names -----

  /** No object repeats a name. */
  ghost predicate Unique(v: Value)
    decreases v
  {
    match v
    case Scalar(_) => true
    case Node(kind, _, slots, _) =>
      && (kind.ObjectKind? ==> DistinctKeys(Keys(slots)))
      && forall i :: 0 <= i < |slots| ==> Unique(slots[i].value)
  }

  /** Every object's names strictly ascend. */
  ghost predicate Ordered(v: Value)
    decreases v
  {
    match v
    case Scalar(_) => true
    case Node(kind, _, slots, _) =>
      && (kind.ObjectKind? ==> Ascending(Keys(slots)))
      && forall i :: 0 <= i < |slots| ==> Ordered(slots[i].value)
  }

  /** In every object each unescaped name precedes the next one in byte order. */
  ghost predicate NamesAscend(v: Value)
    decreases v
  {
    match v
    case Scalar(_) => true
    case Node(kind, _, slots, _) =>
      && (kind.ObjectKind? ==> forall i :: 0 <= i < |slots| - 1 ==> Precedes(KeyOf(slots[i]), KeyOf(slots[i + 1])))
      && forall i :: 0 <= i < |slots| ==> NamesAscend(slots[i].value)
  }

  lemma {:induction false} OrderedIsByteOrder(v: Value)
    ensures Ordered(v) <==> NamesAscend(v)
    decreases v
  {
    hide KeyOf, Precedes, Ascending;
    if v.Node? {
      forall i | 0 <= i < |v.slots|
        ensures Ordered(v.slots[i].value) <==> NamesAscend(v.slots[i].value)
      {
        OrderedIsByteOrder(v.slots[i].value);
      }
      SlotsAscend(v.slots);
    }
  }

  lemma {:induction false} SlotsAscend(slots: seq<Slot>)
    ensures Ascending(Keys(slots)) <==> forall i :: 0 <= i < |slots| - 1 ==> Precedes(KeyOf(slots[i]), KeyOf(slots[i + 1]))
  {
    hide KeyOf, Precedes, Ascending;
    var keys := Keys(slots);
    AscendingIsByteOrder(keys);
    assert forall i :: 0 <= i < |slots| ==> keys[i].key == KeyOf(slots[i]);
    if forall i :: 0 <= i < |keys| - 1 ==> Precedes(keys[i].key, keys[i + 1].key) {
      forall i | 0 <= i < |slots| - 1
        ensures Precedes(KeyOf(slots[i]), KeyOf(slots[i + 1]))
      {
        assert Precedes(keys[i].key, keys[i + 1].key);
      }
    }
  }

  lemma {:induction false} KeysOfItems(slots: seq<Slot>)
    ensures Items(Keys(slots)) == slots
  {
  }

  /** Sorted entries still carry their own keys. */
  lemma {:induction false} KeysOfSorted(ns: seq<Slot>)
    ensures Keys(Items(SortByKey(Keys(ns)))) == SortByKey(Keys(ns))
  {
    hide KeyOf, SortByKey;
    var sorted := SortByKey(Keys(ns));
    SortByKeySorts(Keys(ns));
    forall i | 0 <= i < |sorted| ensures sorted[i] == Keyed(KeyOf(sorted[i].item), sorted[i].item) {
      assert sorted[i] in multiset(Keys(ns));
    }
  }

  /** An object can be arranged exactly when its names are distinct, and then its names ascend and
      its slots are the same bag. */
  lemma {:induction false} ArrangedObject(lead: string, ns: seq<Slot>, seps: seq<string>)
    ensures Arranged(ObjectKind, lead, ns, seps).Some? <==> DistinctKeys(Keys(ns))
    ensures Arranged(ObjectKind, lead, ns, seps).Some? ==>
      var n := Arranged(ObjectKind, lead, ns, seps).value;
      && n.kind == ObjectKind && n.lead == lead && n.seps == seps
      && multiset(n.slots) == multiset(ns) && |n.slots| == |ns| && Ascending(Keys(n.slots))
  {
    hide KeyOf, SortByKey, Keys;
    var keys := Keys(ns);
    var sorted := SortByKey(keys);
    SortByKeySorts(keys);
    AdjacentTestDecides(sorted);
    KeysOfSorted(ns);
    KeysOfItems(ns);
    ItemsOfBag(sorted, keys);
    if DistinctKeys(keys) {
      DistinctIsABagProperty(keys, sorted);
    }
    if DistinctKeys(sorted) {
      DistinctIsABagProperty(sorted, keys);
    }
  }

  lemma {:induction false} SameNamesSameKeys(slots: seq<Slot>, ns: seq<Slot>)
    requires |slots| == |ns| && forall i :: 0 <= i < |slots| ==> ns[i].name == slots[i].name
    ensures DistinctKeys(Keys(slots)) <==> DistinctKeys(Keys(ns))
    ensures Ascending(Keys(slots)) <==> Ascending(Keys(ns))
  {
    hide KeyOf, Less;
    forall i | 0 <= i < |slots| ensures Keys(slots)[i].key == Keys(ns)[i].key {
      SameNameSameKey(slots[i], ns[i]);
    }
    SameKeys(Keys(slots), Keys(ns));
  }

  lemma {:induction false} SameNameSameKey(s: Slot, t: Slot)
    requires s.name == t.name
    ensures KeyOf(s) == KeyOf(t)
  {
  }

  /** The normal form exists exactly when no object repeats a name. */
  lemma {:induction false} NormalExists(v: Value)
    ensures Normal(v).Some? <==> Unique(v)
    decreases v
  {
    hide KeyOf, Keys, DistinctKeys, Arranged, NormalSlots;
    if v.Node? {
      var slots := v.slots;
      NormalSlotsAt(slots);
      forall i | 0 <= i < |slots| ensures Normal(slots[i].value).Some? <==> Unique(slots[i].value) {
        NormalExists(slots[i].value);
      }
      if NormalSlots(slots).Some? {
        var ns := NormalSlots(slots).value;
        SameNamesSameKeys(slots, ns);
        if v.kind == ObjectKind {
          ArrangedObject(v.lead, ns, v.seps);
        } else {
          ArrangedArray(v.lead, ns, v.seps);
        }
      }
    }
  }

  lemma {:induction false} ArrangedArray(lead: string, ns: seq<Slot>, seps: seq<string>)
    ensures Arranged(ArrayKind, lead, ns, seps) == Some(Node(ArrayKind, lead, ns, seps))
  {
  }

  lemma {:induction false} InBag<T>(xs: seq<T>, ys: seq<T>, i: nat)
    requires multiset(xs) == multiset(ys) && i < |xs|
    ensures exists j :: 0 <= j < |ys| && ys[j] == xs[i]
  {
    assert xs[i] in multiset(ys);
  }

  /** The normal form's names ascend in every object, and it is as well formed as the tree it came from. */
  lemma {:induction false} NormalIsOrdered(v: Value, depth: nat)
    requires Normal(v).Some? && Wf(v, depth)
    ensures Ordered(Normal(v).value) && Wf(Normal(v).value, depth)
    decreases v
  {
    hide KeyOf, Keys, DistinctKeys, Ascending, Arranged, NormalSlots, WfHead, ScalarText, WfSeps;
    if v.Node? {
      var slots := v.slots;
      NormalSlotsAt(slots);
      var ns := NormalSlots(slots).value;
      forall i | 0 <= i < |slots| ensures Ordered(ns[i].value) && Wf(ns[i].value, depth + 1) {
        NormalIsOrdered(slots[i].value, depth + 1);
      }
      forall i | 0 <= i < |slots| ensures WfHead(ns[i], v.kind) {
        SameHead(slots[i], ns[i], v.kind);
      }
      var n := Normal(v).value;
      if v.kind.ObjectKind? {
        ArrangedObject(v.lead, ns, v.seps);
        forall i | 0 <= i < |n.slots|
          ensures Ordered(n.slots[i].value) && Wf(n.slots[i].value, depth + 1) && WfHead(n.slots[i], v.kind)
        {
          InBag(n.slots, ns, i);
        }
      } else {
        ArrangedArray(v.lead, ns, v.seps);
      }
    }
  }

  lemma {:induction false} SameHead(s: Slot, t: Slot, kind: Kind)
    requires s.name == t.name && s.colon == t.colon
    ensures WfHead(s, kind) == WfHead(t, kind)
  {
  }

  /** In byte order: in every object of the normal form each unescaped name precedes the next one. */
  lemma {:induction false} NormalNamesAscend(v: Value, depth: nat)
    requires Normal(v).Some? && Wf(v, depth)
    ensures NamesAscend(Normal(v).value)
  {
    hide Normal, Ordered, NamesAscend;
    NormalIsOrdered(v, depth);
    OrderedIsByteOrder(Normal(v).value);
  }

  /** A tree already in order is its own normal form. */
  lemma {:induction false} OrderedIsNormal(v: Value)
    requires Ordered(v)
    ensures Normal(v) == Some(v)
    decreases v
  {
    if v.Node? {
      hide KeyOf, Keys, NormalSlots;
      var slots := v.slots;
      forall i | 0 <= i < |slots| ensures Normal(slots[i].value) == Some(slots[i].value) {
        OrderedIsNormal(slots[i].value);
      }
      NormalSlotsIs(slots, slots);
      if v.kind.ObjectKind? {
        SortOfAscending(Keys(slots));
        forall i, j | 0 <= i < j < |slots| ensures Keys(slots)[i].key != Keys(slots)[j].key {
          LessTrichotomy(Keys(slots)[i].key, Keys(slots)[j].key);
        }
        KeysOfItems(slots);
      }
    }
  }

  // ----- the same bytes -----

  function SlotsBag(slots: seq<Slot>): multiset<char> {
    if slots == [] then multiset{} else multiset(SlotText(slots[0])) + SlotsBag(slots[1..])
  }

  function SepsBag(seps: seq<string>): multiset<char> {
    if seps == [] then multiset{} else multiset(seps[0]) + SepsBag(seps[1..])
  }

  lemma {:induction false} BodyBag(slots: seq<Slot>, seps: seq<string>)
    requires |slots| == |seps|
    ensures multiset(PrintBody(slots, seps)) == SlotsBag(slots) + SepsBag(seps)
  {
    hide SlotText;
    if slots != [] {
      BodyBag(slots[1..], seps[1..]);
      BodyPrints(slots, seps, "");
    }
  }

  lemma {:induction false} SlotsBagConcat(a: seq<Slot>, b: seq<Slot>)
    ensures SlotsBag(a + b) == SlotsBag(a) + SlotsBag(b)
  {
    hide SlotText;
    if a == [] {
      assert a + b == b;
    } else {
      assert (a + b)[1..] == a[1..] + b;
      SlotsBagConcat(a[1..], b);
    }
  }

  lemma {:induction false} SlotsBagOfBag(xs: seq<Slot>, ys: seq<Slot>)
    requires multiset(xs) == multiset(ys)
    ensures SlotsBag(xs) == SlotsBag(ys)
  {
    hide SlotText;
    assert |xs| == |multiset(xs)| == |ys|;
    if xs != [] {
      var i := TakeOut(xs, ys);
      SlotsBagOfBag(xs[1..], ys[..i] + ys[i + 1..]);
      SlotsBagConcat(ys[..i] + [xs[0]], ys[i + 1..]);
      SlotsBagConcat(ys[..i], [xs[0]]);
      SlotsBagConcat(ys[..i], ys[i + 1..]);
    }
  }

  lemma {:induction false} SlotsBagPointwise(xs: seq<Slot>, ys: seq<Slot>)
    requires |xs| == |ys| && forall i :: 0 <= i < |xs| ==> multiset(SlotText(xs[i])) == multiset(SlotText(ys[i]))
    ensures SlotsBag(xs) == SlotsBag(ys)
  {
    hide SlotText;
    if xs != [] {
      forall i | 0 <= i < |xs| - 1 ensures multiset(SlotText(xs[1..][i])) == multiset(SlotText(ys[1..][i])) {
        assert xs[1..][i] == xs[i + 1] && ys[1..][i] == ys[i + 1];
      }
      SlotsBagPointwise(xs[1..], ys[1..]);
    }
  }

  lemma {:induction false} SlotTextBag(s: Slot, n: Value)
    requires multiset(Print(n)) == multiset(Print(s.value))
    ensures multiset(SlotText(s)) == multiset(SlotText(Slot(s.name, s.colon, n)))
  {
    hide Print;
  }

  lemma {:induction false} NodeBag(kind: Kind, lead: string, slots: seq<Slot>, seps: seq<string>)
    requires |slots| == |seps|
    ensures multiset(Print(Node(kind, lead, slots, seps))) ==
            multiset{Open(kind), Close(kind)} + multiset(lead) + SlotsBag(slots) + SepsBag(seps)
  {
    hide PrintBody;
    BodyBag(slots, seps);
    var body := PrintBody(slots, seps);
    assert Print(Node(kind, lead, slots, seps)) == [Open(kind)] + (lead + (body + [Close(kind)]));
  }

  /** The normal form has the same bytes, each as often. */
  lemma {:induction false} NormalKeepsBytes(v: Value, depth: nat)
    requires Normal(v).Some? && Wf(v, depth)
    ensures multiset(Print(Normal(v).value)) == multiset(Print(v))
    decreases v
  {
    hide Print, SlotText, Arranged, NormalSlots, KeyOf, Keys, WfHead, WfSeps, ScalarText, SlotsBag, SepsBag;
    if v.Node? {
      var slots := v.slots;
      NormalSlotsAt(slots);
      var ns := NormalSlots(slots).value;
      var n := Normal(v).value;
      forall i | 0 <= i < |slots| ensures multiset(SlotText(slots[i])) == multiset(SlotText(ns[i])) {
        NormalKeepsBytes(slots[i].value, depth + 1);
        SlotTextBag(slots[i], Normal(slots[i].value).value);
      }
      SlotsBagPointwise(slots, ns);
      if v.kind == ObjectKind {
        ArrangedObject(v.lead, ns, v.seps);
      } else {
        ArrangedArray(v.lead, ns, v.seps);
      }
      SlotsBagOfBag(n.slots, ns);
      NodeBag(v.kind, v.lead, slots, v.seps);
      NodeBag(n.kind, n.lead, n.slots, n.seps);
    }
  }

  // ----- the same value -----

  /** What a JSON text means: an object is a finite map, its members' order nothing (section 4 of
      RFC 8259). */
  datatype Json = JScalar(text: string) | JArray(items: seq<Json>) | JObject(members: map<string, Json>)

  ghost function Denote(v: Value): Json
    decreases v
  {
    match v
    case Scalar(text) => JScalar(text)
    case Node(kind, _, slots, _) =>
      if kind.ArrayKind? then JArray(DenoteItems(slots)) else JObject(DenoteMembers(slots))
  }

  ghost function DenoteItems(slots: seq<Slot>): (r: seq<Json>)
    ensures |r| == |slots|
    decreases slots
  {
    if slots == [] then [] else [Denote(slots[0].value)] + DenoteItems(slots[1..])
  }

  ghost function DenoteMembers(slots: seq<Slot>): map<string, Json>
    decreases slots
  {
    if slots == [] then map[] else DenoteMembers(slots[1..])[KeyOf(slots[0]) := Denote(slots[0].value)]
  }

  lemma {:induction false} DistinctHead(slots: seq<Slot>)
    requires slots != [] && DistinctKeys(Keys(slots))
    ensures DistinctKeys(Keys(slots[1..]))
    ensures forall i :: 0 < i < |slots| ==> KeyOf(slots[i]) != KeyOf(slots[0])
  {
    KeysTail(slots);
    hide KeyOf, Keys, DistinctKeys;
    DistinctTail(Keys(slots));
    forall i | 0 < i < |slots| ensures KeyOf(slots[i]) != KeyOf(slots[0]) {
      assert Keys(slots)[i].key != Keys(slots)[0].key;
    }
  }

  lemma {:induction false} KeysTail(slots: seq<Slot>)
    requires slots != []
    ensures Keys(slots[1..]) == Keys(slots)[1..]
  {
    hide KeyOf;
  }

  /** `m` maps exactly the slots' names, each to what its value denotes. */
  ghost predicate Tabulates(m: map<string, Json>, slots: seq<Slot>) {
    && (forall i :: 0 <= i < |slots| ==> KeyOf(slots[i]) in m && m[KeyOf(slots[i])] == Denote(slots[i].value))
    && (forall k :: k in m ==> exists i :: 0 <= i < |slots| && KeyOf(slots[i]) == k)
  }

  lemma {:induction false} DenoteMembersAt(slots: seq<Slot>)
    requires DistinctKeys(Keys(slots))
    ensures Tabulates(DenoteMembers(slots), slots)
  {
    if slots != [] {
      hide KeyOf, Denote, Keys, DistinctKeys, Tabulates;
      DistinctHead(slots);
      DenoteMembersAt(slots[1..]);
      TabulatesMore(DenoteMembers(slots[1..]), slots);
    }
  }

  lemma {:induction false} TabulatesMore(m: map<string, Json>, slots: seq<Slot>)
    requires slots != [] && Tabulates(m, slots[1..])
    requires forall i :: 0 < i < |slots| ==> KeyOf(slots[i]) != KeyOf(slots[0])
    ensures Tabulates(m[KeyOf(slots[0]) := Denote(slots[0].value)], slots)
  {
    hide KeyOf, Denote;
    var m' := m[KeyOf(slots[0]) := Denote(slots[0].value)];
    var tail := slots[1..];
    forall i | 0 < i < |slots| ensures KeyOf(slots[i]) in m' && m'[KeyOf(slots[i])] == Denote(slots[i].value) {
      assert slots[i] == tail[i - 1];
    }
    forall k | k in m' ensures exists i :: 0 <= i < |slots| && KeyOf(slots[i]) == k {
      if k == KeyOf(slots[0]) {
        assert KeyOf(slots[0]) == k;
      } else {
        var j :| 0 <= j < |tail| && KeyOf(tail[j]) == k;
        assert KeyOf(slots[j + 1]) == k;
      }
    }
  }

  /** Members in any order denote the same map. */
  lemma {:induction false} DenoteOfBag(xs: seq<Slot>, ys: seq<Slot>)
    requires multiset(xs) == multiset(ys) && DistinctKeys(Keys(xs)) && DistinctKeys(Keys(ys))
    ensures DenoteMembers(xs) == DenoteMembers(ys)
  {
    hide KeyOf, Denote, DenoteMembers, Keys;
    DenoteMembersAt(xs);
    DenoteMembersAt(ys);
    var mx, my := DenoteMembers(xs), DenoteMembers(ys);
    forall k | k in mx ensures k in my && mx[k] == my[k] {
      var i :| 0 <= i < |xs| && KeyOf(xs[i]) == k;
      InBag(xs, ys, i);
      var j :| 0 <= j < |ys| && ys[j] == xs[i];
    }
    forall k | k in my ensures k in mx {
      var j :| 0 <= j < |ys| && KeyOf(ys[j]) == k;
      InBag(ys, xs, j);
      var i :| 0 <= i < |xs| && xs[i] == ys[j];
    }
  }

  lemma {:induction false} DenotePointwise(xs: seq<Slot>, ys: seq<Slot>)
    requires |xs| == |ys|
    requires forall i :: 0 <= i < |xs| ==> xs[i].name == ys[i].name && Denote(xs[i].value) == Denote(ys[i].value)
    ensures DenoteItems(xs) == DenoteItems(ys) && DenoteMembers(xs) == DenoteMembers(ys)
  {
    hide KeyOf, Denote;
    if xs != [] {
      forall i | 0 <= i < |xs| - 1 ensures xs[1..][i] == xs[i + 1] && ys[1..][i] == ys[i + 1] {
      }
      DenotePointwise(xs[1..], ys[1..]);
      SameNameSameKey(xs[0], ys[0]);
    }
  }

  /** The normal form denotes the same JSON value. */
  lemma {:induction false} NormalKeepsMeaning(v: Value)
    requires Normal(v).Some?
    ensures Denote(Normal(v).value) == Denote(v)
    decreases v
  {
    hide Arranged, NormalSlots, KeyOf, Keys, DenoteItems, DenoteMembers, DistinctKeys;
    if v.Node? {
      var slots := v.slots;
      NormalSlotsAt(slots);
      var ns := NormalSlots(slots).value;
      var n := Normal(v).value;
      forall i | 0 <= i < |slots| ensures Denote(slots[i].value) == Denote(ns[i].value) {
        NormalKeepsMeaning(slots[i].value);
      }
      DenotePointwise(slots, ns);
      if v.kind == ObjectKind {
        ArrangedObject(v.lead, ns, v.seps);
        AscendingIsDistinct(n.slots);
        DenoteOfBag(n.slots, ns);
      } else {
        ArrangedArray(v.lead, ns, v.seps);
      }
    }
  }

  lemma {:induction false} AscendingIsDistinct(slots: seq<Slot>)
    requires Ascending(Keys(slots))
    ensures DistinctKeys(Keys(slots))
  {
    hide KeyOf, Keys, Less;
    var ks := Keys(slots);
    forall i, j | 0 <= i < j < |ks| ensures ks[i].key != ks[j].key {
      LessTrichotomy(ks[i].key, ks[j].key);
    }
  }

  // ----- confluence -----

  /** The two trees differ only by permuting the members of objects, at any depth; every separator,
      every name and every array element stands where it stood. */
  ghost predicate Equivalent(v: Value, w: Value)
    decreases v
  {
    match (v, w)
    case (Scalar(a), Scalar(b)) => a == b
    case (Node(k1, lead1, slots1, seps1), Node(k2, lead2, slots2, seps2)) =>
      && k1 == k2 && lead1 == lead2 && seps1 == seps2
      && exists mid: seq<Slot> ::
        && (if k1.ObjectKind? then multiset(mid) == multiset(slots2) else mid == slots2)
        && SlotwiseEquivalent(slots1, mid)
    case _ => false
  }

  ghost predicate SlotwiseEquivalent(xs: seq<Slot>, ys: seq<Slot>)
    decreases xs
  {
    |xs| == |ys| && forall i :: 0 <= i < |xs| ==>
      xs[i].name == ys[i].name && xs[i].colon == ys[i].colon && Equivalent(xs[i].value, ys[i].value)
  }

  /** Slot by slot normalisation commutes with permuting the slots. */
  lemma {:induction false} NormalSlotsOfBag(xs: seq<Slot>, ys: seq<Slot>)
    requires multiset(xs) == multiset(ys)
    ensures NormalSlots(xs).Some? <==> NormalSlots(ys).Some?
    ensures NormalSlots(xs).Some? ==> multiset(NormalSlots(xs).value) == multiset(NormalSlots(ys).value)
  {
    hide Normal;
    assert |xs| == |multiset(xs)| == |ys|;
    if xs != [] {
      var i := TakeOut(xs, ys);
      NormalSlotsOfBag(xs[1..], ys[..i] + ys[i + 1..]);
      NormalSlotsConcat(ys[..i] + [xs[0]], ys[i + 1..]);
      NormalSlotsConcat(ys[..i], [xs[0]]);
      NormalSlotsConcat(ys[..i], ys[i + 1..]);
      NormalSlotsConcat([xs[0]], xs[1..]);
      assert xs == [xs[0]] + xs[1..];
    }
  }

  lemma {:induction false} NormalSlotsConcat(a: seq<Slot>, b: seq<Slot>)
    ensures NormalSlots(a + b) ==
      if NormalSlots(a).Some? && NormalSlots(b).Some? then Some(NormalSlots(a).value + NormalSlots(b).value) else None
  {
    hide Normal;
    if a == [] {
      assert a + b == b;
      if NormalSlots(b).Some? {
        assert [] + NormalSlots(b).value == NormalSlots(b).value;
      }
    } else {
      assert (a + b)[1..] == a[1..] + b;
      NormalSlotsConcat(a[1..], b);
      if NormalSlots(a).Some? && NormalSlots(b).Some? {
        var head, rest := NormalSlots(a).value[0], NormalSlots(a[1..]).value;
        assert [head] + rest + NormalSlots(b).value == [head] + (rest + NormalSlots(b).value);
      }
    }
  }

  /** An object's arrangement is a function of the bag of its slots. */
  lemma {:induction false} ArrangedOfBag(lead: string, xs: seq<Slot>, ys: seq<Slot>, seps: seq<string>)
    requires multiset(xs) == multiset(ys)
    ensures Arranged(ObjectKind, lead, xs, seps) == Arranged(ObjectKind, lead, ys, seps)
  {
    var a, b := Arranged(ObjectKind, lead, xs, seps), Arranged(ObjectKind, lead, ys, seps);
    KeysOfBag(xs, ys);
    hide KeyOf, Keys, Arranged;
    ArrangedObject(lead, xs, seps);
    ArrangedObject(lead, ys, seps);
    if DistinctKeys(Keys(xs)) {
      DistinctIsABagProperty(Keys(xs), Keys(ys));
      KeysOfBag(a.value.slots, b.value.slots);
      AscendingIsUnique(Keys(a.value.slots), Keys(b.value.slots));
      KeysOfItems(a.value.slots);
      KeysOfItems(b.value.slots);
    } else if DistinctKeys(Keys(ys)) {
      DistinctIsABagProperty(Keys(ys), Keys(xs));
    }
  }

  lemma {:induction false} KeysConcat(a: seq<Slot>, b: seq<Slot>)
    ensures Keys(a + b) == Keys(a) + Keys(b)
  {
    hide KeyOf;
  }

  /** Wherever a slot stands, it adds its own key to the bag of the others. */
  lemma {:induction false} KeysAround(left: seq<Slot>, x: Slot, right: seq<Slot>)
    ensures multiset(Keys(left + [x] + right)) == multiset{Keyed(KeyOf(x), x)} + multiset(Keys(left + right))
  {
    hide KeyOf, Keys;
    KeysConcat(left + [x], right);
    KeysConcat(left, [x]);
    KeysConcat(left, right);
    KeysOfOne(x);
  }

  lemma {:induction false} KeysOfBag(xs: seq<Slot>, ys: seq<Slot>)
    requires multiset(xs) == multiset(ys)
    ensures multiset(Keys(xs)) == multiset(Keys(ys))
  {
    hide KeyOf, Keys;
    assert |xs| == |multiset(xs)| == |ys|;
    if xs == [] {
      assert ys == [];
    } else {
      var i := TakeOut(xs, ys);
      KeysOfBag(xs[1..], ys[..i] + ys[i + 1..]);
      KeysAround([], xs[0], xs[1..]);
      KeysAround(ys[..i], xs[0], ys[i + 1..]);
      assert [] + [xs[0]] + xs[1..] == xs && [] + xs[1..] == xs[1..];
    }
  }

  lemma {:induction false} KeysOfOne(s: Slot)
    ensures Keys([s]) == [Keyed(KeyOf(s), s)]
  {
    hide KeyOf;
  }

  /** Permuting members anywhere leaves the normal form, or its absence, as it was. */
  lemma {:induction false} Confluence(v: Value, w: Value)
    requires Equivalent(v, w)
    ensures Normal(v) == Normal(w)
    decreases v
  {
    if v.Node? {
      var mid: seq<Slot> :|
        && (if v.kind.ObjectKind? then multiset(mid) == multiset(w.slots) else mid == w.slots)
        && SlotwiseEquivalent(v.slots, mid);
      hide Arranged, Keys, KeyOf, NormalSlots;
      forall i | 0 <= i < |mid| ensures Normal(v.slots[i].value) == Normal(mid[i].value) {
        Confluence(v.slots[i].value, mid[i].value);
      }
      hide Equivalent;
      NormalSlotsPointwise(v.slots, mid);
      if v.kind == ObjectKind {
        NormalSlotsOfBag(mid, w.slots);
        if NormalSlots(mid).Some? {
          ArrangedOfBag(v.lead, NormalSlots(mid).value, NormalSlots(w.slots).value, v.seps);
        }
      }
    }
  }

  lemma {:induction false} NormalSlotsPointwise(xs: seq<Slot>, ys: seq<Slot>)
    requires |xs| == |ys|
    requires forall i :: 0 <= i < |xs| ==>
      xs[i].name == ys[i].name && xs[i].colon == ys[i].colon && Normal(xs[i].value) == Normal(ys[i].value)
    ensures NormalSlots(xs) == NormalSlots(ys)
  {
    hide Normal, NormalSlots;
    NormalSlotsAt(xs);
    NormalSlotsAt(ys);
    if NormalSlots(xs).Some? {
      assert NormalSlots(xs).value == NormalSlots(ys).value;
    }
  }

  lemma {:induction false} NormalSlotsWithout(ws: seq<Slot>, i: nat)
    requires NormalSlots(ws).Some? && i < |ws|
    ensures |NormalSlots(ws).value| == |ws|
    ensures NormalSlots(ws[..i] + ws[i + 1..]) == Some(NormalSlots(ws).value[..i] + NormalSlots(ws).value[i + 1..])
  {
    hide Normal, NormalSlots;
    NormalSlotsAt(ws);
    var ns := NormalSlots(ws).value;
    NormalSlotsIs(ws[..i] + ws[i + 1..], ns[..i] + ns[i + 1..]);
  }

  lemma {:induction false} PutBack<T>(ws: seq<T>, i: nat, rest: seq<T>)
    requires i < |ws| && multiset(rest) == multiset(ws[..i] + ws[i + 1..])
    ensures multiset([ws[i]] + rest) == multiset(ws)
  {
    assert ws == ws[..i] + [ws[i]] + ws[i + 1..];
  }

  /** Lifting a permutation of normal slots back to the slots they came from. */
  lemma {:induction false} LiftPermutation(ws: seq<Slot>, target: seq<Slot>) returns (mid: seq<Slot>)
    requires NormalSlots(ws).Some? && multiset(NormalSlots(ws).value) == multiset(target)
    ensures multiset(mid) == multiset(ws) && NormalSlots(mid) == Some(target)
    decreases |target|
  {
    NormalSlotsAt(ws);
    var ns := NormalSlots(ws).value;
    assert |ns| == |multiset(target)| == |target|;
    if target == [] {
      mid := [];
    } else {
      hide Normal, NormalSlots;
      var i := TakeOut(target, ns);
      NormalSlotsWithout(ws, i);
      var rest := LiftPermutation(ws[..i] + ws[i + 1..], target[1..]);
      mid := [ws[i]] + rest;
      PutBack(ws, i, rest);
      LiftStep(ws, i, rest, target);
    }
  }

  lemma {:induction false} LiftStep(ws: seq<Slot>, i: nat, rest: seq<Slot>, target: seq<Slot>)
    requires NormalSlots(ws).Some? && i < |ws| == |NormalSlots(ws).value| && target != []
    requires NormalSlots(ws).value[i] == target[0] && NormalSlots(rest) == Some(target[1..])
    ensures NormalSlots([ws[i]] + rest) == Some(target)
  {
    hide Normal, NormalSlots;
    NormalSlotsAt(ws);
    NormalSlotsAt(rest);
    NormalSlotsIs([ws[i]] + rest, target);
  }

  /** Equal arrangements come from the same bracket, blanks and separators, and the same bag of slots. */
  lemma {:induction false} SharedArrangement(v: Value, nv: seq<Slot>, w: Value, nw: seq<Slot>)
    requires v.Node? && w.Node?
    requires Arranged(v.kind, v.lead, nv, v.seps).Some?
    requires Arranged(v.kind, v.lead, nv, v.seps) == Arranged(w.kind, w.lead, nw, w.seps)
    ensures v.kind == w.kind && v.lead == w.lead && v.seps == w.seps
    ensures if v.kind.ObjectKind? then multiset(nv) == multiset(nw) else nv == nw
  {
    hide Arranged, Keys, KeyOf, Ascending, DistinctKeys;
    ArrangedKind(v.kind, v.lead, nv, v.seps);
    ArrangedKind(w.kind, w.lead, nw, w.seps);
    if v.kind == ObjectKind {
      ArrangedObject(v.lead, nv, v.seps);
      ArrangedObject(w.lead, nw, w.seps);
    } else {
      ArrangedArray(v.lead, nv, v.seps);
      ArrangedArray(w.lead, nw, w.seps);
    }
  }

  /** Only permuting members does: a shared normal form is a permutation of members. */
  lemma {:induction false} SharedNormalForm(v: Value, w: Value)
    requires Normal(v).Some? && Normal(v) == Normal(w)
    ensures Equivalent(v, w)
    decreases v
  {
    if v.Node? {
      hide Arranged, Keys, KeyOf, NormalSlots, Equivalent;
      assert w.Node?;
      var nv, nw := NormalSlots(v.slots).value, NormalSlots(w.slots).value;
      SharedArrangement(v, nv, w, nw);
      var mid := w.slots;
      if v.kind.ObjectKind? {
        mid := LiftPermutation(w.slots, nv);
      }
      NormalSlotsAt(v.slots);
      NormalSlotsAt(mid);
      forall i | 0 <= i < |mid| ensures Equivalent(v.slots[i].value, mid[i].value) {
        assert Normal(v.slots[i].value).value == nv[i].value == Normal(mid[i].value).value;
        SharedNormalForm(v.slots[i].value, mid[i].value);
      }
      EquivalentNode(v, w, mid);
    }
  }

  lemma {:induction false} EquivalentNode(v: Value, w: Value, mid: seq<Slot>)
    requires v.Node? && w.Node? && v.kind == w.kind && v.lead == w.lead && v.seps == w.seps
    requires if v.kind.ObjectKind? then multiset(mid) == multiset(w.slots) else mid == w.slots
    requires SlotwiseEquivalent(v.slots, mid)
    ensures Equivalent(v, w)
  {
  }

  lemma {:induction false} ArrangedKind(kind: Kind, lead: string, ns: seq<Slot>, seps: seq<string>)
    requires Arranged(kind, lead, ns, seps).Some?
    ensures Arranged(kind, lead, ns, seps).value.kind == kind
  {
    hide Keys, SortByKey;
  }
}
