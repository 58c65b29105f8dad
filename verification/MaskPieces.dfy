/**
 A token read by a masking rule: pieces kept byte for byte and pieces replaced by the wildcard
 (core/src/mask/mask.cpp). Every rule answers with such pieces, so what a normal form can contain follows
 once for all of them.
 */
module MaskPieces {
  import opened Wrappers
  import opened Text

  const WILDCARD := "<*>"

  datatype Piece = Kept(text: string) | Masked(text: string)

  /** The bytes the pieces were cut from. */
  function SourceOf(ps: seq<Piece>): string {
    if ps == [] then "" else ps[0].text + SourceOf(ps[1..])
  }

  function Shown(p: Piece): string {
    if p.Masked? then WILDCARD else p.text
  }

  /** The normal form: every masked piece reads as the wildcard. */
  function Rendered(ps: seq<Piece>): string {
    if ps == [] then "" else Shown(ps[0]) + Rendered(ps[1..])
  }

  predicate Masks(ps: seq<Piece>) {
    exists i :: 0 <= i < |ps| && ps[i].Masked?
  }

  /** Only ranges of one class are masked, and no empty one. */
  predicate MasksOnly(class_: string -> bool, ps: seq<Piece>) {
    forall i :: 0 <= i < |ps| && ps[i].Masked? ==> ps[i].text != "" && class_(ps[i].text)
  }

  predicate SpaceFree(s: string) {
    forall i :: 0 <= i < |s| ==> s[i] != ' '
  }

  lemma {:induction false} SourceConcat(a: seq<Piece>, b: seq<Piece>)
    ensures SourceOf(a + b) == SourceOf(a) + SourceOf(b)
  {
    if a == [] {
      assert [] + b == b && "" + SourceOf(b) == SourceOf(b);
    } else {
      assert (a + b)[1..] == a[1..] + b;
      SourceConcat(a[1..], b);
      Joins(a[0].text, SourceOf(a[1..]), SourceOf(b));
    }
  }

  lemma {:induction false} Joins(a: string, b: string, c: string)
    ensures (a + b) + c == a + (b + c)
  {
  }

  /** A normal form of a space-free token is space-free, and not empty. */
  lemma {:induction false} RenderedIsToken(ps: seq<Piece>)
    requires SpaceFree(SourceOf(ps))
    ensures SpaceFree(Rendered(ps))
    ensures SourceOf(ps) != "" ==> Rendered(ps) != ""
  {
    if ps != [] {
      SpaceFreeParts(ps[0].text, SourceOf(ps[1..]));
      RenderedIsToken(ps[1..]);
    }
  }

  lemma {:induction false} SpaceFreeParts(a: string, b: string)
    requires SpaceFree(a + b)
    ensures SpaceFree(a) && SpaceFree(b)
  {
    forall i | 0 <= i < |b|
      ensures b[i] != ' '
    {
      assert b[i] == (a + b)[|a| + i];
    }
    forall i | 0 <= i < |a|
      ensures a[i] != ' '
    {
      assert a[i] == (a + b)[i];
    }
  }

  /** One range masked, the rest kept. */
  function MaskRange(tok: string, i: nat, j: nat): (ps: seq<Piece>)
    requires i <= j <= |tok|
    ensures Masks(ps) && |ps| == 3 && ps[1] == Masked(tok[i..j])
  {
    var ps := [Kept(tok[..i]), Masked(tok[i..j]), Kept(tok[j..])];
    assert ps[1].Masked?;
    ps
  }

  lemma {:induction false} MaskRangeSource(tok: string, i: nat, j: nat)
    requires i <= j <= |tok|
    ensures SourceOf(MaskRange(tok, i, j)) == tok
    ensures Rendered(MaskRange(tok, i, j)) == tok[..i] + WILDCARD + tok[j..]
  {
    ThreePieces(Kept(tok[..i]), Masked(tok[i..j]), Kept(tok[j..]));
    hide SourceOf, Rendered;
    assert tok == tok[..i] + tok[i..j] + tok[j..];
  }

  lemma {:induction false} ThreePieces(a: Piece, b: Piece, c: Piece)
    ensures SourceOf([a, b, c]) == a.text + b.text + c.text
    ensures Rendered([a, b, c]) == Shown(a) + Shown(b) + Shown(c)
  {
    OnePiece(c);
    assert [b, c][1..] == [c] && [a, b, c][1..] == [b, c];
    Joins(a.text, b.text, c.text);
    Joins(Shown(a), Shown(b), Shown(c));
  }

  lemma {:induction false} OnePiece(p: Piece)
    ensures SourceOf([p]) == p.text && Rendered([p]) == Shown(p)
  {
    assert [p][1..] == [];
    assert p.text + "" == p.text && Shown(p) + "" == Shown(p);
  }

  /** What a rule written as a loop answers: whether it claims, and then the normal form of its claim. */
  predicate Answers(claim: Option<seq<Piece>>, claimed: bool, out: string) {
    claimed == claim.Some? && (claimed ==> out == Rendered(claim.value))
  }

  lemma {:induction false} RenderedConcat(a: seq<Piece>, b: seq<Piece>)
    ensures Rendered(a + b) == Rendered(a) + Rendered(b)
  {
    if a == [] {
      assert [] + b == b && "" + Rendered(b) == Rendered(b);
    } else {
      assert (a + b)[1..] == a[1..] + b;
      RenderedConcat(a[1..], b);
      Joins(Shown(a[0]), Rendered(a[1..]), Rendered(b));
    }
  }

  lemma {:induction false} MasksConcat(a: seq<Piece>, b: seq<Piece>)
    ensures Masks(a + b) <==> Masks(a) || Masks(b)
  {
    if i :| 0 <= i < |a| && a[i].Masked? {
      assert (a + b)[i].Masked?;
    }
    if i :| 0 <= i < |b| && b[i].Masked? {
      assert (a + b)[|a| + i].Masked?;
    }
    if i :| 0 <= i < |a + b| && (a + b)[i].Masked? {
      assert if i < |a| then a[i].Masked? else b[i - |a|].Masked?;
    }
  }
}
