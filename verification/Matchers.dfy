/**
 What the bracket matchers of cpplint are to each other: the forward and the backward scanner
 are inverse, and `_GetTextInside`, a third matcher, agrees with them.
 */
module Matchers {
  import opened Options
  import opened Brackets
  import opened Lines
  import opened ForwardMatcher
  import opened BackwardMatcher

  /** Going to the end of an expression and back leads to where the expression began. */
  lemma ForwardThenBackward(lines: seq<string>, l: nat, p: nat)
    requires ValidPlace(lines, l, p) && IsOpen(lines[l][p])
    requires CloseExpressionSpec(lines, l, p).At?
    ensures var r := CloseExpressionSpec(lines, l, p);
            && r.pos > 0 && ValidPlace(lines, r.line, r.pos - 1)
            && IsClose(lines[r.line][r.pos - 1])
            && ReverseCloseExpressionSpec(lines, r.line, r.pos - 1) == At(l, p)
  {
    hide Balanced, Flat, CloseExpressionSpec, ReverseCloseExpressionSpec;
    var w, r := Flat(lines), CloseExpressionSpec(lines, l, p);
    CloseExpressionMatches(lines, l, p);
    var n, q := r.line, r.pos - 1;
    FlatAt(lines, l, p);
    FlatAt(lines, n, q);
    ReverseCloseExpressionMatches(lines, n, q);
    var b := ReverseCloseExpressionSpec(lines, n, q);
    assert MatchAt(w, Offset(lines, l, p), Offset(lines, n, q));
    MatchUnique(w, Offset(lines, l, p), Offset(lines, n, q), Offset(lines, b.line, b.pos), Offset(lines, n, q));
    OffsetInjective(lines, l, p, b.line, b.pos);
  }

  /** Going to the start of an expression and forward again leads to where it ends. */
  lemma BackwardThenForward(lines: seq<string>, l: nat, p: nat)
    requires ValidPlace(lines, l, p) && IsClose(lines[l][p])
    requires ReverseCloseExpressionSpec(lines, l, p).At?
    ensures var r := ReverseCloseExpressionSpec(lines, l, p);
            && ValidPlace(lines, r.line, r.pos)
            && IsOpen(lines[r.line][r.pos])
            && CloseExpressionSpec(lines, r.line, r.pos) == At(l, p + 1)
  {
    hide Balanced, Flat, CloseExpressionSpec, ReverseCloseExpressionSpec;
    var w, r := Flat(lines), ReverseCloseExpressionSpec(lines, l, p);
    ReverseCloseExpressionMatches(lines, l, p);
    var n, q := r.line, r.pos;
    FlatAt(lines, l, p);
    FlatAt(lines, n, q);
    CloseExpressionMatches(lines, n, q);
    var f := CloseExpressionSpec(lines, n, q);
    assert MatchAt(w, Offset(lines, n, q), Offset(lines, l, p));
    MatchUnique(w, Offset(lines, n, q), Offset(lines, l, p), Offset(lines, n, q), Offset(lines, f.line, f.pos - 1));
    OffsetInjective(lines, l, p, f.line, f.pos - 1);
  }

  // ----- The third matcher -----

  /** The text between the bracket at `o` and its partner, if it has one. */
  ghost function TextInside(text: string, o: nat): Option<string> {
    if j :| MatchAt(text, o, j) then Some(text[o + 1..j]) else None
  }

  lemma PartnerIsOnly(text: string, o: nat, j: int)
    requires MatchAt(text, o, j)
    ensures TextInside(text, o) == Some(text[o + 1..j])
  {
    var k :| MatchAt(text, o, k) && TextInside(text, o) == Some(text[o + 1..k]);
    PartnerUnique(text, o, j, k);
  }

  /** `_GetTextInside`, once its start pattern has matched up to `start`. */
  method GetTextInside(text: string, start: nat) returns (r: Option<string>)
    requires 0 < start <= |text| && IsOpen(text[start - 1])
    ensures r == TextInside(text, start - 1)
  {
    hide Close, Balanced;
    ghost var goal := Close(text[start..], [text[start - 1]]);
    MatchIffCloses(text, start - 1);
    var expected := [Swap(text[start - 1])];
    ghost var pending := [text[start - 1]];
    var position := start;
    while expected != [] && position < |text|
      invariant start <= position <= |text|
      invariant |expected| == |pending|
      invariant forall k :: 0 <= k < |pending| ==> IsOpen(pending[k]) && expected[k] == Swap(pending[k])
      invariant pending != [] ==> goal == Shift(Close(text[position..], pending), position - start)
      invariant pending == [] ==> position > start && goal == Some(position - start)
      decreases |text| - position
    {
      ghost var w := text[position..];
      assert w[1..] == text[position + 1..];
      CloseUnfold(w, pending);
      if text[position] == expected[|expected| - 1] {
        expected := expected[..|expected| - 1];
        pending := pending[..|pending| - 1];
      } else if IsClose(text[position]) {
        return None;
      } else if IsOpen(text[position]) {
        expected := expected + [Swap(text[position])];
        pending := pending + [text[position]];
      }
      position := position + 1;
    }
    if expected != [] {
      assert text[position..] == [];
      CloseRange([], pending);
      return None;
    }
    assert MatchAt(text, start - 1, position - 1);
    PartnerIsOnly(text, start - 1, position - 1);
    r := Some(text[start..position - 1]);
  }

  /** `_GetTextInside` returns exactly the text up to the place `CloseExpression` finds. */
  lemma TextInsideAgrees(lines: seq<string>, l: nat, p: nat)
    requires ValidPlace(lines, l, p) && IsOpen(lines[l][p])
    ensures Offset(lines, l, p) < |Flat(lines)|
    ensures var r, o := CloseExpressionSpec(lines, l, p), Offset(lines, l, p);
            match TextInside(Flat(lines), o)
            case None => r.Nowhere?
            case Some(t) =>
              && r.At? && o + 1 <= Offset(lines, r.line, r.pos) - 1 <= |Flat(lines)|
              && t == Flat(lines)[o + 1..Offset(lines, r.line, r.pos) - 1]
  {
    hide Balanced, Flat, CloseExpressionSpec;
    FlatAt(lines, l, p);
    CloseExpressionMatches(lines, l, p);
    var w, o, r := Flat(lines), Offset(lines, l, p), CloseExpressionSpec(lines, l, p);
    if r.At? {
      PartnerIsOnly(w, o, Offset(lines, r.line, r.pos - 1));
    }
  }
}
