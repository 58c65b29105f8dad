/**
 The program's own loops over a line's bytes (`json_order` and `json_member_order` in
 core/src/mask/mask.cpp), each proved to compute what the grammar, the tree reader and the normal
 form say.
 */
module JsonScan {
  import opened Wrappers
  import opened Text
  import opened KeySort
  import opened JsonGrammar
  import opened JsonTree
  import opened JsonOrder
  import opened JsonDocument
  import JsonNames

  method SkipBlanksFrom(src: string, from: nat) returns (pos: nat)
    ensures pos == SkipBlanks(src, from)
  {
    pos := from;
    while pos < |src| && Blank(src[pos])
      invariant SkipBlanks(src, from) == SkipBlanks(src, pos)
      decreases |src| - pos
    {
      pos := pos + 1;
    }
  }

  /** Four hexadecimal digits after `pos`. */
  method FourHexDigits(src: string, pos: nat) returns (ok: bool)
    requires pos < |src|
    ensures ok <==> pos + 4 < |src| && Hex(src[pos + 1]) && Hex(src[pos + 2]) && Hex(src[pos + 3]) && Hex(src[pos + 4])
  {
    hide HexValue;
    var at := pos;
    while at < pos + 4
      invariant pos <= at <= pos + 4 && at < |src|
      invariant forall i :: pos < i <= at ==> Hex(src[i])
    {
      at := at + 1;
      if at >= |src| || HexValue(src[at]) == 16 {
        return false;
      }
    }
    return true;
  }

  /** `string_end`. */
  method ScanString(src: string, at: nat) returns (end: Option<nat>)
    requires at < |src| && src[at] == '"'
    ensures end == StringEnd(src, at)
  {
    hide Hex, SimpleEscape;
    var pos := at + 1;
    while pos < |src|
      invariant pos > at
      invariant BodyEnd(src, at + 1) == BodyEnd(src, pos)
      decreases |src| - pos
    {
      var chr := src[pos];
      if chr == '"' {
        return Some(pos + 1);
      }
      if chr < ' ' {
        return None;
      }
      if chr == '\\' {
        pos := pos + 1;
        if pos >= |src| {
          return None;
        }
        var esc := src[pos];
        if esc == 'u' {
          var digits := FourHexDigits(src, pos);
          if !digits {
            return None;
          }
          pos := pos + 4;
        } else if !SimpleEscape(esc) {
          return None;
        }
      }
      pos := pos + 1;
    }
    return None;
  }

  method ScanInt(src: string, at: nat) returns (end: Option<nat>)
    requires at <= |src|
    ensures end == IntEnd(src, at)
  {
    if at < |src| && src[at] == '0' {
      return Some(at + 1);
    }
    var digits := SkipDigits(src, at);
    return if digits == at then None else Some(digits);
  }

  method ScanFrac(src: string, at: nat) returns (end: Option<nat>)
    requires at <= |src|
    ensures end == FracEnd(src, at)
  {
    if at < |src| && src[at] == '.' {
      var digits := SkipDigits(src, at + 1);
      return if digits == at + 1 then None else Some(digits);
    }
    return Some(at);
  }

  method ScanExp(src: string, at: nat) returns (end: Option<nat>)
    requires at <= |src|
    ensures end == ExpEnd(src, at)
  {
    if at < |src| && (src[at] == 'e' || src[at] == 'E') {
      var pos := at + 1;
      if pos < |src| && (src[pos] == '+' || src[pos] == '-') {
        pos := pos + 1;
      }
      var digits := SkipDigits(src, pos);
      return if digits == pos then None else Some(digits);
    }
    return Some(at);
  }

  /** `number_end`, its parts in turn. */
  method ScanNumber(src: string, at: nat) returns (end: Option<nat>)
    requires at <= |src|
    ensures end == NumberEnd(src, at)
  {
    hide IntEnd, FracEnd, ExpEnd;
    var pos := at;
    if pos < |src| && src[pos] == '-' {
      pos := pos + 1;
    }
    end := ScanInt(src, pos);
    if end.Some? {
      end := ScanFrac(src, end.value);
    }
    if end.Some? {
      end := ScanExp(src, end.value);
    }
  }

  /** `scalar_end`. */
  method ScanScalar(src: string, pos: nat) returns (end: Option<nat>)
    requires pos < |src|
    ensures end == ScalarEnd(src, pos)
  {
    if src[pos] == '"' {
      end := ScanString(src, pos);
    } else if StartsWith(src, pos, "true") {
      end := Some(pos + 4);
    } else if StartsWith(src, pos, "false") {
      end := Some(pos + 5);
    } else if StartsWith(src, pos, "null") {
      end := Some(pos + 4);
    } else {
      end := ScanNumber(src, pos);
    }
  }

  /** `member_value_at`. */
  method MemberValueAt(src: string, pos: nat) returns (at: Option<nat>)
    requires pos <= |src|
    ensures at == (match MemberHead(src, pos) case None => None case Some(head) => Some(head.valueAt))
  {
    if pos >= |src| || src[pos] != '"' {
      return None;
    }
    var nameEnd := ScanString(src, pos);
    if nameEnd.None? {
      return None;
    }
    var colonAt := SkipBlanksFrom(src, nameEnd.value);
    if colonAt >= |src| || src[colonAt] != ':' {
      return None;
    }
    var valueAt := SkipBlanksFrom(src, colonAt + 1);
    return Some(valueAt);
  }

  /** Where the value of the slot at `pos` starts: an element's at once, a member's after its name. */
  method SlotValueAt(src: string, pos: nat, kind: Kind) returns (at: Option<nat>)
    requires pos <= |src|
    ensures at == (match ParseHead(src, pos, kind) case None => None case Some(head) => Some(head.valueAt))
  {
    if kind.ObjectKind? {
      at := MemberValueAt(src, pos);
    } else {
      at := Some(pos);
    }
  }

  function EndOf(p: Option<Parsed>): Option<nat> {
    match p
    case None => None
    case Some(parsed) => Some(parsed.end)
  }

  function CloserOf(b: Option<ParsedBody>): Option<nat> {
    match b
    case None => None
    case Some(body) => Some(body.end)
  }

  /** One turn of the body loop, as the recogniser sees it. */
  lemma {:induction false} BodyTurn(src: string, pos: nat, kind: Kind, depth: nat)
    requires pos <= |src|
    ensures var head := ParseHead(src, pos, kind);
      CloserOf(ParseBody(src, pos, kind, depth)) ==
      if head.None? then None
      else
        var parsed := ParseValue(src, head.value.valueAt, depth + 1);
        if parsed.None? then None
        else
          var after := SkipBlanks(src, parsed.value.end);
          if after < |src| && src[after] == Close(kind) then Some(after)
          else if after >= |src| || src[after] != ',' then None
          else CloserOf(ParseBody(src, SkipBlanks(src, after + 1), kind, depth))
  {
    hide ParseHead, ParseValue, SkipBlanks;
  }

  /** The recogniser at one value, in terms of its parts. */
  lemma {:induction false} ValueTurn(src: string, at: nat, depth: nat)
    requires at <= |src|
    ensures EndOf(ParseValue(src, at, depth)) ==
      if at == |src| then None
      else if src[at] != '{' && src[at] != '[' then ScalarEnd(src, at)
      else if depth >= MAX_DEPTH then None
      else
        var kind := if src[at] == '{' then ObjectKind else ArrayKind;
        var first := SkipBlanks(src, at + 1);
        if first < |src| && src[first] == Close(kind) then Some(first + 1)
        else
          match CloserOf(ParseBody(src, first, kind, depth))
          case None => None
          case Some(closer) => Some(closer + 1)
  {
    hide ParseBody, ScalarEnd, SkipBlanks;
  }

  /** `value_end`: recursion on values, a loop over the slots of one container. */
  method ValueEnd(src: string, at: nat, depth: nat) returns (end: Option<nat>)
    requires at <= |src|
    ensures end == EndOf(ParseValue(src, at, depth))
    decreases |src| - at, 0
  {
    hide ParseValue, ParseBody, ScalarEnd, SkipBlanks, AllBlank, Blank, EndOf, CloserOf;
    ValueTurn(src, at, depth);
    if at >= |src| {
      return None;
    }
    var open := src[at];
    if open != '{' && open != '[' {
      end := ScanScalar(src, at);
      return;
    }
    if depth >= MAX_DEPTH {
      return None;
    }
    var kind := if open == '{' then ObjectKind else ArrayKind;
    var first := SkipBlanksFrom(src, at + 1);
    if first < |src| && src[first] == Close(kind) {
      return Some(first + 1);
    }
    var closer := SlotsEnd(src, first, kind, depth);
    if closer.None? {
      return None;
    }
    return Some(closer.value + 1);
  }

  /** The slot loop of `value_end`, up to the closer. */
  method SlotsEnd(src: string, first: nat, kind: Kind, depth: nat) returns (closer: Option<nat>)
    requires first <= |src|
    ensures closer == CloserOf(ParseBody(src, first, kind, depth))
    decreases |src| - first, 1
  {
    hide ParseValue, ParseBody, ParseHead, SkipBlanks;
    var pos := first;
    while true
      invariant first <= pos <= |src|
      invariant CloserOf(ParseBody(src, first, kind, depth)) == CloserOf(ParseBody(src, pos, kind, depth))
      decreases |src| - pos
    {
      BodyTurn(src, pos, kind, depth);
      var valueAt := SlotValueAt(src, pos, kind);
      if valueAt.None? {
        return None;
      }
      var valueEnd := ValueEnd(src, valueAt.value, depth + 1);
      if valueEnd.None? {
        return None;
      }
      pos := SkipBlanksFrom(src, valueEnd.value);
      if pos < |src| && src[pos] == Close(kind) {
        return Some(pos);
      }
      if pos >= |src| || src[pos] != ',' {
        return None;
      }
      pos := SkipBlanksFrom(src, pos + 1);
    }
  }
}
