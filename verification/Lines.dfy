/** Files as sequences of lines, places in them, and the small text tests the scanners use. */
module Lines {
  import opened Options
  import opened Sequences
  import opened Brackets

  datatype Place = At(line: nat, pos: nat) | Nowhere

  ghost predicate ValidPlace(lines: seq<string>, l: nat, p: nat) {
    l < |lines| && p < |lines[l]|
  }

  /** The text of the file without its line breaks. */
  function Flat(lines: seq<string>): string {
    if lines == [] then [] else lines[0] + Flat(lines[1..])
  }

  /** Where line `l`, column `p` lies in the flattened text. */
  function Offset(lines: seq<string>, l: nat, p: nat): nat
    requires l <= |lines|
  {
    |Flat(lines[..l])| + p
  }

  lemma {:induction false} FlatSplit(lines: seq<string>, l: nat)
    requires l <= |lines|
    ensures Flat(lines) == Flat(lines[..l]) + Flat(lines[l..])
  {
    if l > 0 {
      FlatSplit(lines[1..], l - 1);
      assert lines[..l][1..] == lines[1..][..l - 1];
      assert lines[1..][l - 1..] == lines[l..];
    }
  }

  lemma FlatFrom(lines: seq<string>, l: nat, i: nat)
    requires l < |lines| && i <= |lines[l]|
    ensures Offset(lines, l, i) <= |Flat(lines)|
    ensures Flat(lines)[Offset(lines, l, i)..] == lines[l][i..] + Flat(lines[l + 1..])
  {
    FlatSplit(lines, l);
    assert lines[l..][1..] == lines[l + 1..];
    assert Flat(lines[l..]) == lines[l] + Flat(lines[l + 1..]);
    hide Flat;
    var before := Flat(lines[..l]);
    assert (before + (lines[l] + Flat(lines[l + 1..])))[|before| + i..] == lines[l][i..] + Flat(lines[l + 1..]);
  }

  lemma FlatAt(lines: seq<string>, l: nat, p: nat)
    requires l < |lines| && p < |lines[l]|
    ensures Offset(lines, l, p) < |Flat(lines)| && Flat(lines)[Offset(lines, l, p)] == lines[l][p]
  {
    FlatFrom(lines, l, p);
    var w, o := Flat(lines), Offset(lines, l, p);
    assert w[o] == w[o..][0];
  }

  lemma OffsetNextLine(lines: seq<string>, l: nat)
    requires l < |lines|
    ensures Offset(lines, l + 1, 0) == Offset(lines, l, 0) + |lines[l]|
  {
    FlatSplit(lines[..l + 1], l);
    assert lines[..l + 1][..l] == lines[..l];
    assert lines[..l + 1][l..] == [lines[l]];
    assert Flat([lines[l]]) == lines[l] + Flat([]);
  }

  lemma OffsetBound(lines: seq<string>, l: nat, p: nat)
    requires l < |lines| && p <= |lines[l]|
    ensures Offset(lines, l, p) <= |Flat(lines)|
  {
    FlatFrom(lines, l, p);
  }

  /** A place in the file is determined by its offset. */
  lemma OffsetInjective(lines: seq<string>, l: nat, p: nat, l': nat, p': nat)
    requires l < |lines| && p < |lines[l]| && l' < |lines| && p' < |lines[l']|
    requires Offset(lines, l, p) == Offset(lines, l', p')
    ensures l == l' && p == p'
  {
    if l < l' {
      OffsetMonotone(lines, l + 1, l');
      OffsetNextLine(lines, l);
    } else if l' < l {
      OffsetMonotone(lines, l' + 1, l);
      OffsetNextLine(lines, l');
    }
  }

  lemma {:induction false} OffsetMonotone(lines: seq<string>, l: nat, l': nat)
    requires l <= l' <= |lines|
    ensures Offset(lines, l, 0) <= Offset(lines, l', 0)
    decreases l' - l
  {
    if l < l' {
      OffsetNextLine(lines, l);
      OffsetMonotone(lines, l + 1, l');
    }
  }

  // ----- Stacks -----

  /** The stack after removing every `a` above the topmost other character. */
  function DropWhile(s: string, a: char): string {
    if s != [] && Top(s) == a then DropWhile(Pop(s), a) else s
  }

  method DropAngles(s: string, a: char) returns (t: string)
    ensures t == DropWhile(s, a)
  {
    t := s;
    while t != [] && Top(t) == a
      invariant DropWhile(t, a) == DropWhile(s, a)
    {
      t := Pop(t);
    }
  }

  /** The stack with every `a` left out. */
  function Without(s: string, a: char): string {
    if s == [] then [] else if Top(s) == a then Without(Pop(s), a) else Without(Pop(s), a) + [Top(s)]
  }

  lemma WithoutNil(a: char)
    ensures Without([], a) == []
  {
  }

  lemma WithoutPush(s: string, c: char, a: char)
    ensures Without(s + [c], a) == if c == a then Without(s, a) else Without(s, a) + [c]
  {
    assert Pop(s + [c]) == s;
  }

  lemma WithoutPop(s: string, a: char)
    requires s != []
    ensures Top(s) == a ==> Without(Pop(s), a) == Without(s, a)
    ensures Top(s) != a ==>
              && Without(s, a) != [] && Top(Without(s, a)) == Top(s)
              && Without(Pop(s), a) == Pop(Without(s, a))
  {
  }

  lemma {:induction false} DropWhileWithout(s: string, a: char)
    ensures Without(DropWhile(s, a), a) == Without(s, a)
    ensures DropWhile(s, a) <= s
    ensures DropWhile(s, a) != [] ==> Top(DropWhile(s, a)) != a
  {
    if s != [] && Top(s) == a {
      DropWhileWithout(Pop(s), a);
    }
  }

  lemma {:induction false} DropWhileBased(s: string, a: char)
    requires s != [] && s[0] != a
    ensures DropWhile(s, a) != [] && DropWhile(s, a)[0] == s[0]
  {
    if Top(s) == a {
      DropWhileBased(Pop(s), a);
    }
  }

  lemma {:induction false} WithoutBase(s: string, a: char)
    requires s != [] && s[0] != a
    ensures Without(s, a) != [] && Without(s, a)[0] == s[0]
    ensures |s| == 1 ==> Without(s, a) == s
  {
    if |s| == 1 {
      assert Pop(s) == [];
      assert s == [Top(s)];
    } else {
      WithoutBase(Pop(s), a);
    }
  }

  /** A closing bracket, once the characters `a` above the topmost bracket are dropped. */
  lemma CloserSteps(c: char, stack: string, a: char)
    requires IsClose(c) && a != c && IsNeutral(a)
    ensures var s := DropWhile(stack, a);
            Step(c, Without(stack, a)) ==
            if s != [] && Swap(Top(s)) == c then Some(Without(Pop(s), a)) else None
  {
    hide Without, DropWhile;
    DropWhileWithout(stack, a);
    var s := DropWhile(stack, a);
    if s != [] {
      WithoutPop(s, a);
    } else {
      WithoutNil(a);
    }
  }

  // ----- Text tests -----

  predicate IsSpace(c: char) {
    c == ' ' || c == '\t' || c == '\n' || c == '\r' || c == 11 as char || c == 12 as char
  }

  predicate IsWord(c: char) {
    'a' <= c <= 'z' || 'A' <= c <= 'Z' || '0' <= c <= '9' || c == '_'
  }

  /** The word `operator`, at a word boundary, followed by white space up to the end. */
  predicate EndsWithOperator(s: string) {
    exists k :: 0 <= k <= |s| - 8 && OperatorAt(s, k)
  }

  predicate OperatorAt(s: string, k: nat)
    requires k + 8 <= |s|
  {
    && s[k..k + 8] == "operator"
    && (k > 0 ==> !IsWord(s[k - 1]))
    && forall j :: k + 8 <= j < |s| ==> IsSpace(s[j])
  }

  /** The last character of such a text is white space or the `r` of `operator`. */
  lemma EndsWithOperatorTail(s: string)
    requires EndsWithOperator(s)
    ensures s != [] && (IsSpace(s[|s| - 1]) || s[|s| - 1] == 'r')
  {
    var k :| 0 <= k <= |s| - 8 && OperatorAt(s, k);
    assert s[k + 7] == s[k..k + 8][7];
  }

  /** White space, `>=` and white space, starting at `k`. */
  predicate SpacedGreaterEqual(line: string, k: nat) {
    k + 4 <= |line| && IsSpace(line[k]) && line[k + 1] == '>' && line[k + 2] == '=' && IsSpace(line[k + 3])
  }
}
