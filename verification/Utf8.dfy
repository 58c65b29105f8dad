/**
 UTF-8 repair (core/api/utf8/well_formed.hpp), against an independent reference: a byte sequence is
 one well-formed character exactly when it is the encoding of a Unicode scalar value (Table 3-6,
 section 3.9 of the Unicode Standard). The table-driven step, the eight-bytes-at-a-time scan and
 the replacement pass are all measured against that.
 */
module Utf8 {
  import Bits

  type byte = b: int | 0 <= b < 256
  type bytes = seq<byte>

  // ----- the reference -----

  predicate IsScalarValue(v: int) {
    0 <= v < 0xD800 || 0xE000 <= v < 0x110000
  }

  /** Table 3-6: the bit distribution, for every value below 0x110000. */
  function Encode(v: int): (r: bytes)
    requires 0 <= v < 0x110000
    ensures 1 <= |r| <= 4
  {
    if v < 0x80 then [v]
    else if v < 0x800 then [0xC0 + v / 64, 0x80 + v % 64]
    else if v < 0x10000 then [0xE0 + v / 4096, 0x80 + v / 64 % 64, 0x80 + v % 64]
    else [0xF0 + v / 262144, 0x80 + v / 4096 % 64, 0x80 + v / 64 % 64, 0x80 + v % 64]
  }

  /** One well-formed character. */
  ghost predicate IsChar(s: bytes) {
    exists v: int :: IsScalarValue(v) && s == Encode(v)
  }

  /** A concatenation of well-formed characters. */
  ghost predicate WellFormed(s: bytes)
    decreases |s|
  {
    s == [] || exists k: nat :: 1 <= k <= |s| && IsChar(s[..k]) && WellFormed(s[k..])
  }

  /** A proper, non-empty start of some well-formed character. */
  ghost predicate Begins(p: bytes) {
    p != [] && exists c: bytes :: IsChar(c) && |p| < |c| && c[..|p|] == p
  }

  /** D93b: no character starts at the head of `s`, and its first `n` bytes are the longest run that
      is a single byte or the start of a character. */
  ghost predicate MaximalSubpart(s: bytes, n: nat) {
    && 1 <= n <= |s|
    && (forall k: nat :: k <= |s| ==> !IsChar(s[..k]))
    && (n == 1 || Begins(s[..n]))
    && (forall m: nat :: n < m <= |s| ==> !Begins(s[..m]))
  }

  // ----- Table 3-7 -----

  datatype LeadRow = LeadRow(firstLead: byte, lastLead: byte, continuations: nat, secondLow: byte, secondHigh: byte)

  const LEADS: seq<LeadRow> := [
    LeadRow(0xC2, 0xDF, 1, 0x80, 0xBF),
    LeadRow(0xE0, 0xE0, 2, 0xA0, 0xBF),
    LeadRow(0xE1, 0xEC, 2, 0x80, 0xBF),
    LeadRow(0xED, 0xED, 2, 0x80, 0x9F),
    LeadRow(0xEE, 0xEF, 2, 0x80, 0xBF),
    LeadRow(0xF0, 0xF0, 3, 0x90, 0xBF),
    LeadRow(0xF1, 0xF3, 3, 0x80, 0xBF),
    LeadRow(0xF4, 0xF4, 3, 0x80, 0x8F)]

  predicate Continuation(b: byte) {
    0x80 <= b <= 0xBF
  }

  predicate Leads(row: LeadRow, lead: byte) {
    row.firstLead <= lead <= row.lastLead
  }

  /** Byte `offset` of a sequence led by `row` may be `b`. */
  predicate Fits(row: LeadRow, offset: nat, b: byte) {
    if offset == 1 then row.secondLow <= b <= row.secondHigh else Continuation(b)
  }

  /** The first `n` bytes of `s` obey `row`, the lead included. */
  predicate Obeys(row: LeadRow, s: bytes, n: nat)
    requires 1 <= n <= |s|
  {
    Leads(row, s[0]) && forall i :: 1 <= i < n ==> Fits(row, i, s[i])
  }

  lemma {:induction false} TableRows(row: LeadRow)
    requires row in LEADS
    ensures 1 <= row.continuations <= 3 && row.firstLead >= 0xC2 && row.secondLow >= 0x80 && row.secondHigh <= 0xBF
    ensures row.secondLow <= row.secondHigh && row.firstLead <= row.lastLead
    ensures row == LEADS[0] || row == LEADS[1] || row == LEADS[2] || row == LEADS[3] ||
            row == LEADS[4] || row == LEADS[5] || row == LEADS[6] || row == LEADS[7]
  {
  }

  /** The rows partition the lead bytes: at most one row takes a lead. */
  lemma {:induction false} RowUnique(r1: LeadRow, r2: LeadRow, lead: byte)
    requires r1 in LEADS && r2 in LEADS && Leads(r1, lead) && Leads(r2, lead)
    ensures r1 == r2
  {
    TableRows(r1);
    TableRows(r2);
  }

  /** Table 3-7 reads exactly the encodings of Table 3-6: from a value to its row. */
  lemma {:induction false} EncodingObeysTable(v: int)
    requires IsScalarValue(v) && v >= 0x80
    ensures exists row :: row in LEADS && |Encode(v)| == row.continuations + 1 && Obeys(row, Encode(v), |Encode(v)|)
  {
    if v < 0x800 {
      RowWitness(LEADS[0], Encode(v));
    } else if v < 0x10000 {
      ThreeByteRow(v);
    } else {
      FourByteRow(v);
    }
  }

  lemma {:induction false} ThreeByteRow(v: int)
    requires IsScalarValue(v) && 0x800 <= v < 0x10000
    ensures exists row :: row in LEADS && |Encode(v)| == row.continuations + 1 && Obeys(row, Encode(v), |Encode(v)|)
  {
    var s := Encode(v);
    if v < 0x1000 {
      RowWitness(LEADS[1], s);
    } else if v < 0xD000 {
      RowWitness(LEADS[2], s);
    } else if v < 0xE000 {
      RowWitness(LEADS[3], s);
    } else {
      RowWitness(LEADS[4], s);
    }
  }

  lemma {:induction false} FourByteRow(v: int)
    requires 0x10000 <= v < 0x110000
    ensures exists row :: row in LEADS && |Encode(v)| == row.continuations + 1 && Obeys(row, Encode(v), |Encode(v)|)
  {
    var s := Encode(v);
    if v < 0x40000 {
      RowWitness(LEADS[5], s);
    } else if v < 0x100000 {
      RowWitness(LEADS[6], s);
    } else {
      RowWitness(LEADS[7], s);
    }
  }

  lemma {:induction false} RowWitness(row: LeadRow, s: bytes)
    requires row in LEADS && |s| == row.continuations + 1 && Leads(row, s[0]) && Fits(row, 1, s[1])
    requires forall i :: 2 <= i < |s| ==> Continuation(s[i])
    ensures exists r :: r in LEADS && |s| == r.continuations + 1 && Obeys(r, s, |s|)
  {
    assert Obeys(row, s, |s|);
  }

  lemma {:induction false} TwoByteValue(b0: int, b1: int)
    requires 0xC2 <= b0 <= 0xDF && 0x80 <= b1 <= 0xBF
    ensures var v := (b0 - 0xC0) * 64 + (b1 - 0x80); 0x80 <= v < 0x800 && v / 64 == b0 - 0xC0 && v % 64 == b1 - 0x80
  {
  }

  lemma {:induction false} ThreeByteValue(b0: int, b1: int, b2: int)
    requires 0xE0 <= b0 <= 0xEF && 0x80 <= b1 <= 0xBF && 0x80 <= b2 <= 0xBF
    requires (b0 == 0xE0 ==> b1 >= 0xA0) && (b0 == 0xED ==> b1 <= 0x9F)
    ensures var v := (b0 - 0xE0) * 4096 + (b1 - 0x80) * 64 + (b2 - 0x80);
      && 0x800 <= v < 0x10000 && IsScalarValue(v)
      && v / 4096 == b0 - 0xE0 && v / 64 % 64 == b1 - 0x80 && v % 64 == b2 - 0x80
  {
    var v := (b0 - 0xE0) * 4096 + (b1 - 0x80) * 64 + (b2 - 0x80);
    assert v / 64 == (b0 - 0xE0) * 64 + (b1 - 0x80);
  }

  lemma {:induction false} FourByteValue(b0: int, b1: int, b2: int, b3: int)
    requires 0xF0 <= b0 <= 0xF4 && 0x80 <= b1 <= 0xBF && 0x80 <= b2 <= 0xBF && 0x80 <= b3 <= 0xBF
    requires (b0 == 0xF0 ==> b1 >= 0x90) && (b0 == 0xF4 ==> b1 <= 0x8F)
    ensures var v := (b0 - 0xF0) * 262144 + (b1 - 0x80) * 4096 + (b2 - 0x80) * 64 + (b3 - 0x80);
      && 0x10000 <= v < 0x110000
      && v / 262144 == b0 - 0xF0 && v / 4096 % 64 == b1 - 0x80 && v / 64 % 64 == b2 - 0x80 && v % 64 == b3 - 0x80
  {
    var v := (b0 - 0xF0) * 262144 + (b1 - 0x80) * 4096 + (b2 - 0x80) * 64 + (b3 - 0x80);
    assert v / 64 == (b0 - 0xF0) * 4096 + (b1 - 0x80) * 64 + (b2 - 0x80);
    assert v / 4096 == (b0 - 0xF0) * 64 + (b1 - 0x80);
  }

  lemma {:induction false} TwoByteChar(b0: byte, b1: byte)
    requires 0xC2 <= b0 <= 0xDF && 0x80 <= b1 <= 0xBF
    ensures IsChar([b0, b1])
  {
    TwoByteValue(b0, b1);
    assert [b0, b1] == Encode((b0 - 0xC0) * 64 + (b1 - 0x80));
  }

  lemma {:induction false} ThreeByteChar(b0: byte, b1: byte, b2: byte)
    requires 0xE0 <= b0 <= 0xEF && 0x80 <= b1 <= 0xBF && 0x80 <= b2 <= 0xBF
    requires (b0 == 0xE0 ==> b1 >= 0xA0) && (b0 == 0xED ==> b1 <= 0x9F)
    ensures IsChar([b0, b1, b2])
  {
    ThreeByteValue(b0, b1, b2);
    assert [b0, b1, b2] == Encode((b0 - 0xE0) * 4096 + (b1 - 0x80) * 64 + (b2 - 0x80));
  }

  lemma {:induction false} FourByteChar(b0: byte, b1: byte, b2: byte, b3: byte)
    requires 0xF0 <= b0 <= 0xF4 && 0x80 <= b1 <= 0xBF && 0x80 <= b2 <= 0xBF && 0x80 <= b3 <= 0xBF
    requires (b0 == 0xF0 ==> b1 >= 0x90) && (b0 == 0xF4 ==> b1 <= 0x8F)
    ensures IsChar([b0, b1, b2, b3])
  {
    FourByteValue(b0, b1, b2, b3);
    assert [b0, b1, b2, b3] == Encode((b0 - 0xF0) * 262144 + (b1 - 0x80) * 4096 + (b2 - 0x80) * 64 + (b3 - 0x80));
  }

  /** Table 3-7 reads exactly the encodings of Table 3-6: from a row back to a value. */
  lemma {:induction false} TableIsEncoding(row: LeadRow, s: bytes)
    requires row in LEADS && |s| == row.continuations + 1 && Obeys(row, s, |s|)
    ensures IsChar(s)
  {
    hide IsChar;
    TableRows(row);
    assert Fits(row, 1, s[1]);
    if |s| == 2 {
      TwoByteChar(s[0], s[1]);
      assert s == [s[0], s[1]];
    } else if |s| == 3 {
      assert Fits(row, 2, s[2]);
      ThreeByteChar(s[0], s[1], s[2]);
      assert s == [s[0], s[1], s[2]];
    } else {
      assert Fits(row, 2, s[2]) && Fits(row, 3, s[3]);
      FourByteChar(s[0], s[1], s[2], s[3]);
      assert s == [s[0], s[1], s[2], s[3]];
    }
  }

  /** A character is one ASCII byte or a full row. */
  lemma {:induction false} CharForms(s: bytes)
    ensures IsChar(s) <==>
      (|s| == 1 && s[0] < 0x80) || (exists row :: row in LEADS && |s| == row.continuations + 1 && Obeys(row, s, |s|))
  {
    if IsChar(s) {
      var v: int :| IsScalarValue(v) && s == Encode(v);
      if v >= 0x80 {
        EncodingObeysTable(v);
      }
    }
    if |s| == 1 && s[0] < 0x80 {
      assert s == Encode(s[0]);
    }
    if row :| row in LEADS && |s| == row.continuations + 1 && Obeys(row, s, |s|) {
      TableIsEncoding(row, s);
    }
  }

  // ----- one step -----

  datatype Step = Step(length: nat, wellFormed: bool)

  /** How many bytes from `offset` on still fit `row`, as the step reports it. */
  function Scan(row: LeadRow, s: bytes, offset: nat): (r: Step)
    requires 1 <= offset <= row.continuations + 1 && offset <= |s|
    ensures offset <= r.length <= |s|
    decreases row.continuations + 1 - offset
  {
    if offset == row.continuations + 1 then Step(offset, true)
    else if offset >= |s| || !Fits(row, offset, s[offset]) then Step(offset, false)
    else Scan(row, s, offset + 1)
  }

  function FindRow(lead: byte, from: nat): (r: int)
    requires from <= |LEADS|
    ensures -1 <= r < |LEADS|
    ensures r >= 0 ==> Leads(LEADS[r], lead)
    ensures r < 0 ==> forall i :: from <= i < |LEADS| ==> !Leads(LEADS[i], lead)
    decreases |LEADS| - from
  {
    if from == |LEADS| then -1 else if Leads(LEADS[from], lead) then from else FindRow(lead, from + 1)
  }

  /** The step at the head of `s`: a character, or the bytes one replacement stands for. */
  function StepOf(s: bytes): (r: Step)
    requires s != []
    ensures 1 <= r.length <= |s|
  {
    if s[0] < 0x80 then Step(1, true)
    else
      var row := FindRow(s[0], 0);
      if row < 0 then Step(1, false) else Scan(LEADS[row], s, 1)
  }

  lemma {:induction false} ScanObeys(row: LeadRow, s: bytes, offset: nat)
    requires 1 <= offset <= row.continuations + 1 && offset <= |s| && Obeys(row, s, offset)
    ensures var r := Scan(row, s, offset);
      && Obeys(row, s, r.length)
      && (r.wellFormed <==> r.length == row.continuations + 1)
      && (!r.wellFormed ==> r.length <= row.continuations && (r.length < |s| ==> !Fits(row, r.length, s[r.length])))
    decreases row.continuations + 1 - offset
  {
    if offset != row.continuations + 1 && offset < |s| && Fits(row, offset, s[offset]) {
      ScanObeys(row, s, offset + 1);
    }
  }

  /** What a step on a byte at or above 0x80 has read. */
  lemma {:induction false} StepObeys(s: bytes, row: LeadRow)
    requires s != [] && s[0] >= 0x80 && row in LEADS && Leads(row, s[0])
    ensures var r := StepOf(s);
      && Obeys(row, s, r.length)
      && (r.wellFormed <==> r.length == row.continuations + 1)
      && (!r.wellFormed ==> r.length <= row.continuations && (r.length < |s| ==> !Fits(row, r.length, s[r.length])))
  {
    var at := FindRow(s[0], 0);
    var i :| 0 <= i < |LEADS| && LEADS[i] == row;
    RowUnique(LEADS[at], row, s[0]);
    ScanObeys(row, s, 1);
  }

  /** A character at the head of `s` obeys the one row its lead selects. */
  lemma {:induction false} CharAtHead(s: bytes, k: nat)
    requires s != [] && s[0] >= 0x80 && 1 <= k <= |s| && IsChar(s[..k])
    ensures exists row :: row in LEADS && Leads(row, s[0]) && k == row.continuations + 1 && Obeys(row, s, k)
  {
    var c := s[..k];
    CharForms(c);
    var row :| row in LEADS && |c| == row.continuations + 1 && Obeys(row, c, |c|);
    assert Obeys(row, s, k) by {
      forall i | 1 <= i < k ensures Fits(row, i, s[i]) {
        assert c[i] == s[i];
      }
    }
  }

  lemma {:induction false} BeginsObeys(s: bytes, m: nat)
    requires 1 <= m <= |s| && Begins(s[..m])
    ensures exists row :: row in LEADS && Leads(row, s[0]) && m <= row.continuations && Obeys(row, s, m)
  {
    var p := s[..m];
    var c: bytes :| IsChar(c) && |p| < |c| && c[..|p|] == p;
    CharForms(c);
    var row :| row in LEADS && |c| == row.continuations + 1 && Obeys(row, c, |c|);
    assert p[0] == c[0];
    assert Obeys(row, s, m) by {
      forall i | 1 <= i < m ensures Fits(row, i, s[i]) {
        assert c[i] == p[i] == s[i];
      }
    }
  }

  /** Filling a started row with its lowest continuation bytes completes a character. */
  lemma {:induction false} ObeysBegins(row: LeadRow, s: bytes, m: nat)
    requires row in LEADS && 1 <= m <= |s| && m <= row.continuations && Obeys(row, s, m)
    ensures Begins(s[..m])
  {
    TableRows(row);
    var c := seq(row.continuations + 1, i requires 0 <= i => if i < m then s[i] else if i == 1 then row.secondLow else 0x80);
    assert Obeys(row, c, |c|);
    TableIsEncoding(row, c);
    assert c[..m] == s[..m];
    assert |s[..m]| == m;
  }

  /** The step is exactly the Unicode Standard's: a whole character when one starts there, and
      otherwise the maximal subpart. */
  lemma {:induction false} StepExact(s: bytes)
    requires s != []
    ensures StepOf(s).wellFormed ==> IsChar(s[..StepOf(s).length])
    ensures !StepOf(s).wellFormed ==> MaximalSubpart(s, StepOf(s).length)
  {
    var step := StepOf(s);
    if s[0] < 0x80 {
      assert s[..1] == Encode(s[0]);
    } else if FindRow(s[0], 0) < 0 {
      forall k: nat | 1 <= k <= |s| ensures !IsChar(s[..k]) && !Begins(s[..k]) {
        if IsChar(s[..k]) {
          CharAtHead(s, k);
        }
        if Begins(s[..k]) {
          BeginsObeys(s, k);
        }
      }
      NotEmptyChar(s);
    } else {
      var row := LEADS[FindRow(s[0], 0)];
      StepObeys(s, row);
      if step.wellFormed {
        assert Obeys(row, s[..step.length], step.length);
        TableIsEncoding(row, s[..step.length]);
      } else {
        StepIsMaximal(s, row);
      }
    }
  }

  lemma {:induction false} NotEmptyChar(s: bytes)
    ensures !IsChar(s[..0])
  {
  }

  lemma {:induction false} StepIsMaximal(s: bytes, row: LeadRow)
    requires s != [] && s[0] >= 0x80 && row in LEADS && Leads(row, s[0]) && !StepOf(s).wellFormed
    ensures MaximalSubpart(s, StepOf(s).length)
  {
    var n := StepOf(s).length;
    StepObeys(s, row);
    ObeysBegins(row, s, n);
    forall k: nat | 1 <= k <= |s| ensures !IsChar(s[..k]) {
      if IsChar(s[..k]) {
        CharAtHead(s, k);
        var r :| r in LEADS && Leads(r, s[0]) && k == r.continuations + 1 && Obeys(r, s, k);
        RowUnique(r, row, s[0]);
      }
    }
    NotEmptyChar(s);
    forall m: nat | n < m <= |s| ensures !Begins(s[..m]) {
      if Begins(s[..m]) {
        BeginsObeys(s, m);
        var r :| r in LEADS && Leads(r, s[0]) && m <= r.continuations && Obeys(r, s, m);
        RowUnique(r, row, s[0]);
      }
    }
  }

  /** The converse: wherever a character starts, the step is that character. */
  lemma {:induction false} StepOfChar(s: bytes, k: nat)
    requires 1 <= k <= |s| && IsChar(s[..k])
    ensures StepOf(s) == Step(k, true)
  {
    StepExact(s);
    if s[0] < 0x80 {
      CharForms(s[..k]);
      if k != 1 {
        var row :| row in LEADS && k == row.continuations + 1 && Obeys(row, s[..k], k);
        TableRows(row);
      }
    } else {
      CharAtHead(s, k);
      var row :| row in LEADS && Leads(row, s[0]) && k == row.continuations + 1 && Obeys(row, s, k);
      StepObeys(s, row);
    }
  }

  // ----- whole texts -----

  lemma {:induction false} WellFormedStep(s: bytes)
    requires s != []
    ensures WellFormed(s) <==> StepOf(s).wellFormed && WellFormed(s[StepOf(s).length..])
  {
    StepExact(s);
    if WellFormed(s) {
      var k: nat :| 1 <= k <= |s| && IsChar(s[..k]) && WellFormed(s[k..]);
      StepOfChar(s, k);
    }
  }

  lemma {:induction false} WellFormedCons(c: bytes, rest: bytes)
    requires IsChar(c)
    ensures WellFormed(c + rest) <==> WellFormed(rest)
  {
    var s := c + rest;
    CharForms(c);
    assert s[..|c|] == c && s[|c|..] == rest;
    StepOfChar(s, |c|);
    WellFormedStep(s);
  }

  /** The length the one-step-at-a-time scan reaches. */
  function PrefixOf(s: bytes): (n: nat)
    ensures n <= |s|
    decreases |s|
  {
    if s == [] || !StepOf(s).wellFormed then 0
    else StepOf(s).length + PrefixOf(s[StepOf(s).length..])
  }

  lemma {:induction false} WellFormedEmpty(s: bytes)
    requires s == []
    ensures WellFormed(s)
  {
  }

  /** A step that is no character leaves no well-formed prefix but the empty one. */
  lemma {:induction false} NothingStarts(s: bytes, m: nat)
    requires s != [] && !StepOf(s).wellFormed && 0 < m <= |s|
    ensures !WellFormed(s[..m])
  {
    hide StepOf;
    StepExact(s);
    var head := s[..m];
    forall k: nat | 1 <= k <= m ensures !IsChar(head[..k]) {
      assert head[..k] == s[..k];
    }
  }

  /** The scan reaches the end of the longest well-formed prefix. */
  lemma {:induction false} PrefixIsLongest(s: bytes)
    ensures WellFormed(s[..PrefixOf(s)])
    ensures forall n: nat :: PrefixOf(s) < n <= |s| ==> !WellFormed(s[..n])
    decreases |s|
  {
    hide StepOf, WellFormed, IsChar, MaximalSubpart;
    var n := PrefixOf(s);
    WellFormedEmpty(s[..0]);
    if s != [] {
      var step := StepOf(s);
      StepExact(s);
      if step.wellFormed {
        var rest := s[step.length..];
        PrefixIsLongest(rest);
        assert s[..n] == s[..step.length] + rest[..PrefixOf(rest)];
        WellFormedCons(s[..step.length], rest[..PrefixOf(rest)]);
        forall m: nat | n < m <= |s| ensures !WellFormed(s[..m]) {
          assert s[..m] == s[..step.length] + rest[..m - step.length];
          WellFormedCons(s[..step.length], rest[..m - step.length]);
        }
      } else {
        forall m: nat | 0 < m <= |s| ensures !WellFormed(s[..m]) {
          NothingStarts(s, m);
        }
      }
    }
  }

  /** `s` is well formed exactly when the scan reaches its end. */
  lemma {:induction false} PrefixDecides(s: bytes)
    ensures WellFormed(s) <==> PrefixOf(s) == |s|
  {
    PrefixIsLongest(s);
    assert s[..|s|] == s;
  }

  /** One turn of the scan, in positions of the whole text. */
  lemma {:induction false} PrefixTurn(text: bytes, at: nat)
    requires at < |text|
    ensures var step := StepOf(text[at..]);
      && at + step.length <= |text|
      && PrefixOf(text[at..]) == if step.wellFormed then step.length + PrefixOf(text[at + step.length..]) else 0
  {
    hide StepOf;
    var step := StepOf(text[at..]);
    assert text[at..][step.length..] == text[at + step.length..];
  }

  lemma {:induction false} PrefixOfAscii(s: bytes, n: nat)
    requires n <= |s| && forall i :: 0 <= i < n ==> s[i] < 0x80
    ensures PrefixOf(s) == n + PrefixOf(s[n..])
  {
    if n > 0 {
      PrefixOfAscii(s[1..], n - 1);
      assert s[1..][n - 1..] == s[n..];
      assert StepOf(s) == Step(1, true);
    } else {
      assert s[0..] == s;
    }
  }

  // ----- the repair -----

  /** U+FFFD REPLACEMENT CHARACTER. */
  const REPLACEMENT: bytes := [0xEF, 0xBF, 0xBD]

  function Replaced(s: bytes): bytes
    decreases |s|
  {
    if s == [] then []
    else
      var step := StepOf(s);
      (if step.wellFormed then s[..step.length] else REPLACEMENT) + Replaced(s[step.length..])
  }

  /** One turn of the repair, in positions of the whole text. */
  lemma {:induction false} ReplacedTurn(text: bytes, at: nat)
    requires at < |text|
    ensures var step := StepOf(text[at..]);
      && at + step.length <= |text|
      && Replaced(text[at..]) ==
         (if step.wellFormed then text[at..at + step.length] else REPLACEMENT) + Replaced(text[at + step.length..])
  {
    hide StepOf;
    var step := StepOf(text[at..]);
    assert text[at..][step.length..] == text[at + step.length..];
    assert text[at..][..step.length] == text[at..at + step.length];
  }

  lemma {:induction false} ReplacementIsChar()
    ensures REPLACEMENT == Encode(0xFFFD) && IsChar(REPLACEMENT)
  {
    assert REPLACEMENT == Encode(0xFFFD);
  }

  /** The repaired text is always well formed. */
  lemma {:induction false} ReplacedIsWellFormed(s: bytes)
    ensures WellFormed(Replaced(s))
    decreases |s|
  {
    if s != [] {
      var step := StepOf(s);
      StepExact(s);
      ReplacementIsChar();
      ReplacedIsWellFormed(s[step.length..]);
      WellFormedCons(if step.wellFormed then s[..step.length] else REPLACEMENT, Replaced(s[step.length..]));
    }
  }

  /** Repair changes nothing exactly on well-formed text. */
  lemma {:induction false} ReplacedFixesExactlyWellFormed(s: bytes)
    ensures Replaced(s) == s <==> WellFormed(s)
    decreases |s|
  {
    hide StepOf, WellFormed;
    ReplacedIsWellFormed(s);
    if s != [] && WellFormed(s) {
      WellFormedStep(s);
      var k := StepOf(s).length;
      ReplacedFixesExactlyWellFormed(s[k..]);
      assert s == s[..k] + s[k..];
    }
  }

  lemma {:induction false} ReplacedIdempotent(s: bytes)
    ensures Replaced(Replaced(s)) == Replaced(s)
  {
    ReplacedIsWellFormed(s);
    ReplacedFixesExactlyWellFormed(Replaced(s));
  }

  lemma {:induction false} ReplacedExtends(s: bytes, at: nat)
    requires at <= |s| && WellFormed(s[..at])
    ensures Replaced(s) == s[..at] + Replaced(s[at..])
    decreases at
  {
    hide StepOf, WellFormed, IsChar, Replaced;
    if at == 0 {
      assert s[0..] == s;
    } else {
      var k := HeadStep(s, at);
      var rest := s[k..];
      assert s[0..] == s;
      ReplacedTurn(s, 0);
      ReplacedExtends(rest, at - k);
      assert rest[at - k..] == s[at..];
      assert s[..at] == s[0..k] + rest[..at - k];
    }
  }

  /** A non-empty well-formed prefix begins with the step at the head of the whole. */
  lemma {:induction false} HeadStep(s: bytes, at: nat) returns (k: nat)
    requires 0 < at <= |s| && WellFormed(s[..at])
    ensures 1 <= k <= at && StepOf(s) == Step(k, true) && WellFormed(s[k..][..at - k])
  {
    hide StepOf;
    var head := s[..at];
    k :| 1 <= k <= |head| && IsChar(head[..k]) && WellFormed(head[k..]);
    assert head[..k] == s[..k];
    StepOfChar(s, k);
    assert head[k..] == s[k..][..at - k];
  }

  // ----- ASCII bytes -----

  /** The bytes below 0x80, in order. */
  function AsciiOf(s: bytes): bytes {
    if s == [] then [] else (if s[0] < 0x80 then [s[0]] else []) + AsciiOf(s[1..])
  }

  lemma {:induction false} AsciiOfConcat(a: bytes, b: bytes)
    ensures AsciiOf(a + b) == AsciiOf(a) + AsciiOf(b)
  {
    if a == [] {
      assert a + b == b;
    } else {
      assert (a + b)[1..] == a[1..] + b;
      AsciiOfConcat(a[1..], b);
    }
  }

  lemma {:induction false} NoAscii(s: bytes)
    requires forall i :: 0 <= i < |s| ==> s[i] >= 0x80
    ensures AsciiOf(s) == []
  {
    if s != [] {
      NoAscii(s[1..]);
    }
  }

  /** No ASCII byte is ever inside a longer step. */
  lemma {:induction false} StepTakesNoAscii(s: bytes, i: nat)
    requires s != [] && i < StepOf(s).length && s[0] >= 0x80
    ensures s[i] >= 0x80
  {
    var at := FindRow(s[0], 0);
    if at >= 0 {
      var row := LEADS[at];
      TableRows(row);
      StepObeys(s, row);
      assert i >= 1 ==> Fits(row, i, s[i]);
    }
  }

  /** Repair keeps every ASCII byte, in order and count. */
  lemma {:induction false} ReplacedKeepsAscii(s: bytes)
    ensures AsciiOf(Replaced(s)) == AsciiOf(s)
    decreases |s|
  {
    hide AsciiOf;
    if s == [] {
      NoAscii([]);
    } else {
      var step := StepOf(s);
      var k := step.length;
      StepKeepsAscii(s);
      hide StepOf;
      ReplacedKeepsAscii(s[k..]);
      assert s == s[..k] + s[k..];
      AsciiOfConcat(s[..k], s[k..]);
      AsciiOfConcat(if step.wellFormed then s[..k] else REPLACEMENT, Replaced(s[k..]));
    }
  }

  /** A step that is no character holds no byte below 0x80, and neither does U+FFFD. */
  lemma {:induction false} StepKeepsAscii(s: bytes)
    requires s != []
    ensures var step := StepOf(s);
      !step.wellFormed ==> AsciiOf(s[..step.length]) == AsciiOf(REPLACEMENT)
  {
    hide AsciiOf;
    var step := StepOf(s);
    if !step.wellFormed {
      assert s[0] >= 0x80;
      forall i: nat | i < step.length ensures s[..step.length][i] >= 0x80 {
        StepTakesNoAscii(s, i);
      }
      NoAscii(s[..step.length]);
      NoAscii(REPLACEMENT);
    }
  }

  lemma {:induction false} ScanStopsAtBoundary(row: LeadRow, a: bytes, b: bytes, offset: nat)
    requires row in LEADS && 1 <= offset <= row.continuations + 1 && offset <= |a|
    requires b != [] ==> !Continuation(b[0])
    ensures Scan(row, a + b, offset) == Scan(row, a, offset)
    decreases row.continuations + 1 - offset
  {
    TableRows(row);
    if offset != row.continuations + 1 && offset < |a| && Fits(row, offset, a[offset]) {
      ScanStopsAtBoundary(row, a, b, offset + 1);
    }
  }

  lemma {:induction false} StepStopsAtBoundary(a: bytes, b: bytes)
    requires a != [] && (b != [] ==> !Continuation(b[0]))
    ensures StepOf(a + b) == StepOf(a)
  {
    hide Scan;
    var at := FindRow(a[0], 0);
    assert (a + b)[0] == a[0];
    if a[0] >= 0x80 && at >= 0 {
      ScanStopsAtBoundary(LEADS[at], a, b, 1);
    }
  }

  /** A byte that continues no character is a boundary repair never crosses: each side is repaired
      on its own, so a quote or an escape in a written document is never touched. */
  lemma {:induction false} ReplacedSplits(a: bytes, b: bytes)
    requires b != [] ==> !Continuation(b[0])
    ensures Replaced(a + b) == Replaced(a) + Replaced(b)
    decreases |a|
  {
    hide StepOf, Replaced;
    if a == [] {
      assert a + b == b;
      ReplacedNothing(a);
    } else {
      StepStopsAtBoundary(a, b);
      var k := StepOf(a).length;
      assert (a + b)[0..] == a + b && a[0..] == a;
      ReplacedTurn(a + b, 0);
      ReplacedTurn(a, 0);
      assert (a + b)[0..k] == a[0..k] && (a + b)[k..] == a[k..] + b;
      ReplacedSplits(a[k..], b);
    }
  }

  // ----- the pieces -----

  datatype Piece = Piece(raw: bytes, wellFormed: bool)

  function Flatten(pieces: seq<Piece>): bytes {
    if pieces == [] then [] else pieces[0].raw + Flatten(pieces[1..])
  }

  /** What replacing each ill-formed piece by one U+FFFD gives. */
  function Render(pieces: seq<Piece>): bytes {
    if pieces == [] then []
    else (if pieces[0].wellFormed then pieces[0].raw else REPLACEMENT) + Render(pieces[1..])
  }

  /** A cutting of a text into characters and, where none starts, maximal subparts. */
  ghost predicate Cuts(pieces: seq<Piece>) {
    pieces != [] ==>
      && (if pieces[0].wellFormed then IsChar(pieces[0].raw) else MaximalSubpart(Flatten(pieces), |pieces[0].raw|))
      && Cuts(pieces[1..])
  }

  function PiecesOf(s: bytes): seq<Piece>
    decreases |s|
  {
    if s == [] then []
    else
      var step := StepOf(s);
      [Piece(s[..step.length], step.wellFormed)] + PiecesOf(s[step.length..])
  }

  /** Every text has such a cutting. */
  lemma {:induction false} PiecesOfCuts(s: bytes)
    ensures Flatten(PiecesOf(s)) == s && Cuts(PiecesOf(s))
    decreases |s|
  {
    if s != [] {
      var k := StepOf(s).length;
      StepExact(s);
      PiecesOfCuts(s[k..]);
      assert PiecesOf(s)[1..] == PiecesOf(s[k..]);
      assert s == s[..k] + s[k..];
    }
  }

  /** Whatever cutting is taken, the repair is its rendering: one U+FFFD per maximal subpart. */
  lemma {:induction false} ReplacedIsRendering(pieces: seq<Piece>)
    requires Cuts(pieces)
    ensures Replaced(Flatten(pieces)) == Render(pieces)
  {
    if pieces != [] {
      var s, raw, rest := Flatten(pieces), pieces[0].raw, Flatten(pieces[1..]);
      assert s == raw + rest && s[..|raw|] == raw && s[|raw|..] == rest;
      if pieces[0].wellFormed {
        CharForms(raw);
        StepOfChar(s, |raw|);
      } else {
        assert s != [];
        StepExact(s);
        MaximalSubpartUnique(s, |raw|, StepOf(s).length);
      }
      ReplacedIsRendering(pieces[1..]);
    }
  }

  lemma {:induction false} MaximalSubpartUnique(s: bytes, m: nat, n: nat)
    requires MaximalSubpart(s, m) && MaximalSubpart(s, n)
    ensures m == n
  {
  }

  // ----- the program's loops -----

  /** `step_at`: rows in table order, then the continuation bytes of the row that takes the lead. */
  method StepAt(text: bytes, at: nat) returns (step: Step)
    requires at < |text|
    ensures step == StepOf(text[at..])
  {
    var lead := text[at];
    if lead < 0x80 {
      return Step(1, true);
    }
    ghost var s := text[at..];
    var r := 0;
    while r < |LEADS|
      invariant r <= |LEADS|
      invariant FindRow(lead, 0) == FindRow(lead, r)
    {
      var row := LEADS[r];
      if Leads(row, lead) {
        var low, high := row.secondLow, row.secondHigh;
        var offset := 1;
        while offset <= row.continuations
          invariant 1 <= offset <= row.continuations + 1 && at + offset <= |text|
          invariant low == (if offset == 1 then row.secondLow else 0x80)
          invariant high == (if offset == 1 then row.secondHigh else 0xBF)
          invariant StepOf(s) == Scan(row, s, offset)
        {
          if at + offset >= |text| {
            return Step(offset, false);
          }
          var next := text[at + offset];
          assert next == s[offset];
          if next < low || next > high {
            return Step(offset, false);
          }
          low, high := 0x80, 0xBF;
          offset := offset + 1;
        }
        return Step(row.continuations + 1, true);
      }
      r := r + 1;
    }
    return Step(1, false);
  }

  predicate AllAscii(s: bytes) {
    forall i :: 0 <= i < |s| ==> s[i] < 0x80
  }

  /** The value eight bytes have as one little-endian word. */
  function Word(s: bytes): (r: nat) {
    if s == [] then 0 else s[0] + 256 * Word(s[1..])
  }

  /** 0x80 in each of `n` bytes. */
  function HighBits(n: nat): nat {
    if n == 0 then 0 else 128 + 256 * HighBits(n - 1)
  }

  /** Masking a word with 0x80 per byte leaves zero exactly when every byte is ASCII. */
  lemma {:induction false} WordIsAscii(s: bytes)
    ensures Bits.And(Word(s), HighBits(|s|)) == 0 <==> AllAscii(s)
  {
    hide Bits.And;
    if s == [] {
      assert Bits.And(0, HighBits(0)) <= 0;
    } else {
      WordIsAscii(s[1..]);
      Bits.AndByteTop(Word(s), HighBits(|s| - 1));
      assert Word(s) % 256 == s[0] && Word(s) / 256 == Word(s[1..]);
      forall i | 0 < i < |s| ensures s[i] == s[1..][i - 1] {
      }
    }
  }

  const WORD_BYTES: nat := 8
  const K_HIGH_BITS: nat := 0x8080808080808080

  lemma {:induction false} HighBitsOfWord()
    ensures HighBits(WORD_BYTES) == K_HIGH_BITS
  {
    assert HighBits(1) == 0x80;
    assert HighBits(2) == 0x8080;
    assert HighBits(4) == 0x80808080;
    assert HighBits(6) == 0x808080808080;
  }

  /** `well_formed_prefix`: ASCII runs skipped a word at a time, the rest a step at a time. */
  method WellFormedPrefix(text: bytes) returns (at: nat)
    ensures at == PrefixOf(text)
    ensures WellFormed(text[..at])
    ensures forall n: nat :: at < n <= |text| ==> !WellFormed(text[..n])
  {
    hide StepOf, WellFormed, IsChar, PrefixOf, Bits.And, Word, HighBits;
    at := 0;
    PrefixIsLongest(text);
    HighBitsOfWord();
    assert text[0..] == text;
    while at < |text|
      invariant at <= |text|
      invariant PrefixOf(text) == at + PrefixOf(text[at..])
    {
      while at + WORD_BYTES <= |text|
        invariant at <= |text|
        invariant PrefixOf(text) == at + PrefixOf(text[at..])
      {
        var word := Word(text[at..at + WORD_BYTES]);
        WordIsAscii(text[at..at + WORD_BYTES]);
        if Bits.And(word, K_HIGH_BITS) != 0 {
          break;
        }
        SkipAsciiWord(text, at);
        at := at + WORD_BYTES;
      }
      if at == |text| {
        break;
      }
      PrefixTurn(text, at);
      var step := StepAt(text, at);
      if !step.wellFormed {
        return;
      }
      at := at + step.length;
    }
    PrefixOfNothing(text[at..]);
  }

  lemma {:induction false} PrefixOfNothing(s: bytes)
    requires s == []
    ensures PrefixOf(s) == 0
  {
  }

  lemma {:induction false} SkipAsciiWord(text: bytes, at: nat)
    requires at + WORD_BYTES <= |text|
    requires AllAscii(text[at..at + WORD_BYTES])
    ensures PrefixOf(text[at..]) == WORD_BYTES + PrefixOf(text[at + WORD_BYTES..])
  {
    var s := text[at..];
    forall i | 0 <= i < WORD_BYTES ensures s[i] < 0x80 {
      assert text[at..at + WORD_BYTES][i] == s[i];
    }
    PrefixOfAscii(s, WORD_BYTES);
    assert s[WORD_BYTES..] == text[at + WORD_BYTES..];
  }

  /** `replace_ill_formed`: well-formed input comes back as it is, anything else repaired. */
  method ReplaceIllFormed(text: bytes) returns (out: bytes)
    ensures out == Replaced(text)
    ensures WellFormed(out) && AsciiOf(out) == AsciiOf(text)
    ensures out == text <==> WellFormed(text)
  {
    hide StepOf, WellFormed, IsChar, PrefixOf, AsciiOf, Replaced;
    ReplacedIsWellFormed(text);
    ReplacedKeepsAscii(text);
    ReplacedFixesExactlyWellFormed(text);
    var at := WellFormedPrefix(text);
    if at == |text| {
      PrefixDecides(text);
      return text;
    }
    ReplacedExtends(text, at);
    out := text[..at];
    while at < |text|
      invariant at <= |text|
      invariant Replaced(text) == out + Replaced(text[at..])
    {
      ReplacedTurn(text, at);
      var step := StepAt(text, at);
      if step.wellFormed {
        out := out + text[at..at + step.length];
      } else {
        out := out + REPLACEMENT;
      }
      at := at + step.length;
    }
    ReplacedNothing(text[at..]);
  }

  lemma {:induction false} ReplacedNothing(s: bytes)
    requires s == []
    ensures Replaced(s) == []
  {
  }
}
