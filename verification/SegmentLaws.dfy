/**
 The segment step of the masker told from the segments as they are written: which values move, and that every
 segment moves on its own.
 */
module SegmentLaws {
  import opened Wrappers
  import opened Text
  import opened MaskPieces
  import opened MaskRules
  import opened MaskPaths
  import opened Masker
  import opened TokenShapes
  import opened MaskLaws
  import opened PathLaws

  // ----- one segment -----

  /** A letter or an underscore, then letters, digits, underscores, dots and dashes. */
  predicate KeyText(key: string) {
    key != "" && (Letter(key[0]) || key[0] == '_') && forall i :: 0 <= i < |key| ==> Letter(key[i]) || Numeral(key[i]) || key[i] in "_.-"
  }

  lemma {:induction false} KeyTextIs(key: string)
    ensures SegmentKey(key) <==> KeyText(key)
  {
    hide Letter, Numeral, Alpha, Alnum;
    KeyBytes(key);
  }

  lemma {:induction false} KeyBytes(key: string)
    ensures forall i :: 0 <= i < |key| ==> (LeadKeyByte(key[i]) <==> Letter(key[i]) || Numeral(key[i]) || key[i] in "_.-")
    ensures key != "" ==> (Alpha(key[0]) <==> Letter(key[0]))
  {
  }

  /** Where the key begins: behind the opening bytes of the first segment, at the start of any other. */
  predicate KeyBegins(seg: string, first: bool, eq: nat, lead: nat) {
    lead <= eq < |seg| &&
    if first then (forall i :: 0 <= i < lead ==> OpenerByte(seg[i])) && (lead < eq ==> !OpenerByte(seg[lead])) else lead == 0
  }

  predicate FirstEquals(seg: string, eq: nat) {
    eq < |seg| && seg[eq] == '=' && forall i :: 0 <= i < eq ==> seg[i] != '='
  }

  lemma {:induction false} LeadIs(seg: string, first: bool, eq: nat, lead: nat)
    requires KeyBegins(seg, first, eq, lead) && FirstEquals(seg, eq)
    ensures LeadOf(seg, first, eq) == lead
  {
    hide RunEnd;
    OpenersAre();
    if first {
      var head := seg[0..lead];
      assert forall i :: 0 <= i < |head| ==> WrapperOpen(head[i]);
      assert !WrapperOpen(seg[lead]);
      RunBetween(seg, 0, lead, WrapperOpen);
    }
  }

  lemma {:induction false} OpenersAre()
    ensures forall c :: WrapperOpen(c) <==> OpenerByte(c)
    ensures !OpenerByte('=')
  {
  }

  /** Where the amount of a value at `start` begins: behind a currency mark when something follows it. */
  function AmountFrom(seg: string, start: nat): (from: nat)
    ensures start <= from && (start <= |seg| ==> from <= |seg|)
  {
    start + if start + 1 < |seg| && seg[start] == '$' then 1 else 0
  }

  /** What a segment with an equals sign becomes: behind a key, a value that opens with a digit or a sign and a digit
      and is no short number behind a status key loses its extent. */
  function SegmentText(seg: string, eq: nat, lead: nat, k: nat): string
    requires lead <= eq < |seg| && AmountFrom(seg, eq + 1) + k <= |seg|
  {
    var from := AmountFrom(seg, eq + 1);
    if KeyText(seg[lead..eq]) && SignedDigit(seg[from..]) && !ShortStatus(seg[from..from + k], seg[lead..eq])
    then seg[..from] + "<*>" + if OnlyTail(seg[from..], k) then "" else seg[from + k..]
    else seg
  }

  lemma {:induction false} ValueMoves(seg: string, eq: nat, lead: nat, k: nat)
    requires lead <= eq < |seg| && ExtentStops(seg[AmountFrom(seg, eq + 1)..], k)
    ensures var from := AmountFrom(seg, eq + 1);
      && from + k <= |seg|
      && MaskedValue(seg, lead, eq + 1) ==
         if !SignedDigit(seg[from..]) || ShortStatus(seg[from..from + k], seg[lead..eq]) then None
         else Some((from, if OnlyTail(seg[from..], k) then |seg| else from + k))
  {
    hide MaskedValue, ExtentStops, SignedDigit, ShortStatus, OnlyTail;
    ValueExactly(seg, lead, eq + 1, k);
  }

  lemma {:induction false} SegmentExactly(seg: string, first: bool, eq: nat, lead: nat, k: nat)
    requires FirstEquals(seg, eq) && KeyBegins(seg, first, eq, lead) && ExtentStops(seg[AmountFrom(seg, eq + 1)..], k)
    ensures lead <= eq && AmountFrom(seg, eq + 1) + k <= |seg|
    ensures Rendered(SegmentPieces(seg, first)) == SegmentText(seg, eq, lead, k)
  {
    hide KeyBegins, ExtentStops, MaskedValue, LeadOf, SegmentPieces, SegmentKey, KeyText, SignedDigit, ShortStatus, OnlyTail, Rendered, Masks,
      AmountFrom, FirstOf;
    LeadIs(seg, first, eq, lead);
    FirstOfIs(seg, '=', 0, eq);
    SegmentShown(seg, first);
    KeyWithin(seg, first, eq, lead);
    KeyTextIs(seg[lead..eq]);
    ValueMoves(seg, eq, lead, k);
    NoKey(seg[lead..eq]);
    assert OnlyTail(seg[AmountFrom(seg, eq + 1)..], k) ==> seg[|seg|..] == "";
  }

  lemma {:induction false} NoKey(key: string)
    ensures key == "" ==> !KeyText(key)
  {
  }

  lemma {:induction false} KeyWithin(seg: string, first: bool, eq: nat, lead: nat)
    requires KeyBegins(seg, first, eq, lead)
    ensures lead <= eq < |seg|
  {
  }

  /** A segment without an equals sign is kept. */
  lemma {:induction false} PlainSegment(seg: string, first: bool)
    requires '=' !in seg
    ensures Rendered(SegmentPieces(seg, first)) == seg && !Masks(SegmentPieces(seg, first))
  {
    hide SegmentPieces, SegmentKey, MaskedValue, LeadOf, Rendered, Masks;
    SegmentShown(seg, first);
  }

  // ----- all segments -----

  /** Segments with a semicolon between each two. */
  function Together(ss: seq<string>): string
    requires ss != []
  {
    if |ss| == 1 then ss[0] else ss[0] + (";" + Together(ss[1..]))
  }

  /** Each segment's own reading; only the first may open with opening bytes. */
  function EachRead(ss: seq<string>, first: bool): (rs: seq<string>)
    ensures |rs| == |ss| && forall i :: 0 <= i < |ss| ==> rs[i] == Rendered(SegmentPieces(ss[i], first && i == 0))
  {
    if ss == [] then [] else [Rendered(SegmentPieces(ss[0], first))] + EachRead(ss[1..], false)
  }

  predicate Undelimited(ss: seq<string>) {
    forall i :: 0 <= i < |ss| ==> ';' !in ss[i]
  }

  lemma {:induction false} TogetherHead(form: string, start: nat, ss: seq<string>)
    requires ss != [] && Undelimited(ss) && start <= |form| && form[start..] == Together(ss)
    ensures start + |ss[0]| <= |form| && form[start..start + |ss[0]|] == ss[0]
    ensures |ss| == 1 ==> FirstOf(form, ';', start) == None && form[start..] == ss[0]
    ensures |ss| > 1 ==>
      var end := start + |ss[0]|;
      end < |form| && FirstOf(form, ';', start) == Some(end) && form[end + 1..] == Together(ss[1..]) && Undelimited(ss[1..])
  {
    hide FirstOf;
    var end := start + |ss[0]|;
    if |ss| == 1 {
      assert form[start..end] == ss[0];
      assert forall i :: start <= i < |form| ==> form[i] == form[start..][i - start];
      NoneThere(form, start);
    } else {
      Cut(form, start, ss[0], ";", Together(ss[1..]));
      assert form[end] == form[end..][0];
      assert forall i :: start <= i < end ==> form[i] == form[start..end][i - start];
      FirstOfIs(form, ';', start, end);
    }
  }

  lemma {:induction false} NoneThere(s: string, from: nat)
    requires from <= |s| && forall i :: from <= i < |s| ==> s[i] != ';'
    ensures FirstOf(s, ';', from) == None
    decreases |s| - from
  {
    if from < |s| {
      NoneThere(s, from + 1);
    }
  }

  lemma {:induction false} SegmentsTogether(form: string, start: nat, ss: seq<string>)
    requires ss != [] && Undelimited(ss) && start <= |form| && form[start..] == Together(ss)
    ensures Rendered(SegmentsFrom(form, start)) == Together(EachRead(ss, start == 0))
    decreases |ss|
  {
    hide SegmentPieces, Rendered, Masks, FirstOf, SegmentsFrom, Undelimited, SourceOf;
    TogetherHead(form, start, ss);
    SegmentsAre(form, start);
    EachReadHead(ss, start == 0);
    assert form[start..|form|] == form[start..];
    if |ss| > 1 {
      var end := start + |ss[0]|;
      SegmentsTogether(form, end + 1, ss[1..]);
      Delimited(SegmentPieces(ss[0], start == 0), SegmentsFrom(form, end + 1), "");
      assert [SEGMENT_DELIMITER] == ";";
      NothingBefore(Rendered(SegmentPieces(ss[0], start == 0)), Rendered(SegmentsFrom(form, end + 1)),
                    Rendered(SegmentPieces(ss[0], start == 0) + ([Kept([SEGMENT_DELIMITER])] + SegmentsFrom(form, end + 1))));
    }
  }

  lemma {:induction false} NothingBefore(a: string, b: string, whole: string)
    requires (("" + a) + ";") + b == "" + whole
    ensures whole == a + (";" + b)
  {
    assert "" + whole == whole && "" + a == a;
    assert (a + ";") + b == a + (";" + b);
  }

  lemma {:induction false} EachReadHead(ss: seq<string>, first: bool)
    requires ss != []
    ensures var rs := EachRead(ss, first);
      |rs| == |ss| && rs[0] == Rendered(SegmentPieces(ss[0], first)) && rs[1..] == EachRead(ss[1..], false)
  {
    hide SegmentPieces, Rendered;
  }

  /** Without an equals sign nothing moves. */
  lemma {:induction false} NoEqualsNoMask(form: string, start: nat)
    requires start <= |form| && '=' !in form
    ensures !Masks(SegmentsFrom(form, start))
    decreases |form| - start
  {
    hide SegmentPieces, Rendered, Masks, FirstOf, SegmentsFrom, SourceOf;
    SegmentsAre(form, start);
    var found := FirstOf(form, SEGMENT_DELIMITER, start);
    var end := if found.Some? then found.value else |form|;
    assert forall i :: 0 <= i < |form[start..end]| ==> form[start..end][i] == form[start + i];
    PlainSegment(form[start..end], start == 0);
    if found.Some? {
      NoEqualsNoMask(form, end + 1);
      Delimited(SegmentPieces(form[start..end], start == 0), SegmentsFrom(form, end + 1), "");
    }
  }

  /** The segment step reads every segment on its own, and a form without a semicolon not at all. */
  lemma {:induction false} SegmentsExactly(form: string, ss: seq<string>)
    requires ss != [] && Undelimited(ss) && form == Together(ss)
    ensures SegmentStep(form) == if |ss| == 1 then form else Together(EachRead(ss, true))
  {
    hide SegmentPieces, Rendered, Masks, SegmentsFrom, Undelimited, EachRead, SourceOf;
    assert form[0..] == form;
    SegmentsTogether(form, 0, ss);
    HoldsSemicolon(ss);
    UnmaskedShows(SegmentsFrom(form, 0));
    if '=' !in form {
      NoEqualsNoMask(form, 0);
    }
  }

  lemma {:induction false} HoldsSemicolon(ss: seq<string>)
    requires ss != [] && Undelimited(ss)
    ensures ';' in Together(ss) <==> |ss| > 1
  {
    if |ss| > 1 {
      assert Together(ss)[|ss[0]|] == ';';
    }
  }

  lemma {:induction false} UnmaskedShows(ps: seq<Piece>)
    ensures !Masks(ps) ==> Rendered(ps) == SourceOf(ps)
  {
    if ps != [] && !Masks(ps) {
      var rest := ps[1..];
      assert forall i :: 0 <= i < |rest| ==> rest[i] == ps[i + 1];
      UnmaskedShows(rest);
    }
  }
}
