/**
 Bracketed words, independently of any scanner.

 `Balanced` is the context-free grammar of well-bracketed text over the round, square and
 curly brackets; every other character, angle brackets included, is neutral. `MatchAt`
 says which closing bracket belongs to which opening one. `Close` is the textbook
 matcher with a stack, and `CloseIff` ties it to the grammar.
 */
module Brackets {
  import opened Options

  predicate IsOpen(c: char) {
    c == '(' || c == '[' || c == '{'
  }

  predicate IsClose(c: char) {
    c == ')' || c == ']' || c == '}'
  }

  predicate IsNeutral(c: char) {
    !IsOpen(c) && !IsClose(c)
  }

  /** The bracket facing `c`; a neutral character faces itself. */
  function Swap(c: char): char {
    match c
    case '(' => ')'
    case ')' => '('
    case '[' => ']'
    case ']' => '['
    case '{' => '}'
    case '}' => '{'
    case _ => c
  }

  /** The grammar B ::= empty | neutral B | open B close B. */
  ghost predicate Balanced(w: string)
    decreases |w|
  {
    || w == []
    || (IsNeutral(w[0]) && Balanced(w[1..]))
    || (IsOpen(w[0]) && exists k :: Splits(w, k) && Balanced(w[1..k]) && Balanced(w[k + 1..]))
  }

  /** `w[k]` has the shape of the bracket that closes `w[0]`. */
  predicate Splits(w: string, k: int) {
    1 <= k < |w| && w[k] == Swap(w[0])
  }

  /** The bracket opened at `i` is the one closed at `j`. */
  ghost predicate MatchAt(w: string, i: int, j: int) {
    && 0 <= i < j < |w|
    && IsOpen(w[i])
    && w[j] == Swap(w[i])
    && Balanced(w[i + 1..j])
  }

  // ----- The textbook matcher -----

  /** The effect of one character on the stack of pending open brackets; `None` is a mismatch. */
  function Step(c: char, st: string): Option<string> {
    if IsOpen(c) then
      Some(st + [c])
    else if IsClose(c) then
      if st != [] && Swap(st[|st| - 1]) == c then Some(st[..|st| - 1]) else None
    else
      Some(st)
  }

  function Run(w: string, st: string): Option<string> {
    if w == [] then Some(st)
    else
      match Step(w[0], st)
      case None => None
      case Some(s) => Run(w[1..], s)
  }

  function Shift(r: Option<nat>, n: nat): Option<nat> {
    match r
    case None => None
    case Some(k) => Some(k + n)
  }

  /** The index just past the character of `w` that empties the stack. */
  function Close(w: string, st: string): Option<nat>
    requires st != []
  {
    if w == [] then None
    else
      match Step(w[0], st)
      case None => None
      case Some(s) => if s == [] then Some(1) else Shift(Close(w[1..], s), 1)
  }

  lemma {:induction false} RunConcat(a: string, b: string, st: string)
    ensures Run(a + b, st) == (match Run(a, st) case None => None case Some(s) => Run(b, s))
    decreases |a|
  {
    if a == [] {
      assert a + b == b;
    } else {
      assert (a + b)[1..] == a[1..] + b;
      match Step(a[0], st)
      case None =>
      case Some(s) => RunConcat(a[1..], b, s);
    }
  }

  // ----- The matcher and the grammar -----

  lemma BalancedCases(w: string) returns (k: nat)
    requires Balanced(w) && w != []
    ensures IsNeutral(w[0]) ==> Balanced(w[1..])
    ensures !IsNeutral(w[0]) ==>
              IsOpen(w[0]) && Splits(w, k) && Balanced(w[1..k]) && Balanced(w[k + 1..])
  {
    if IsNeutral(w[0]) {
      k := 0;
    } else {
      k :| Splits(w, k) && Balanced(w[1..k]) && Balanced(w[k + 1..]);
    }
  }

  lemma CloseIgnores(w: string, st: string)
    requires w != [] && IsNeutral(w[0]) && st != []
    ensures Close(w, st) == Shift(Close(w[1..], st), 1)
  {
  }

  lemma CloseOpens(w: string, st: string)
    requires w != [] && IsOpen(w[0]) && st != []
    ensures Close(w, st) == Shift(Close(w[1..], st + [w[0]]), 1)
  {
  }

  lemma CloseCloses(w: string, st: string, c: char)
    requires w != [] && IsOpen(c) && w[0] == Swap(c) && st != []
    ensures Close(w, st + [c]) == Shift(Close(w[1..], st), 1)
  {
    assert (st + [c])[..|st|] == st;
  }

  lemma GroupSkips(w: string, k: nat, n: nat, st: string)
    requires 1 <= k < n <= |w| && IsOpen(w[0]) && w[k] == Swap(w[0]) && st != []
    requires Close(w[1..], st + [w[0]]) == Shift(Close(w[1..][k - 1..], st + [w[0]]), k - 1)
    requires Close(w[k + 1..], st) == Shift(Close(w[k + 1..][n - k - 1..], st), n - k - 1)
    ensures Close(w, st) == Shift(Close(w[n..], st), n)
  {
    hide Close;
    CloseOpens(w, st);
    assert w[1..][k - 1..] == w[k..] && w[k + 1..][n - k - 1..] == w[n..];
    CloseCloses(w[k..], st, w[0]);
    assert w[k..][1..] == w[k + 1..];
  }

  /** A balanced prefix leaves the matcher where it was. */
  lemma {:induction false} BalancedSkips(w: string, n: nat, st: string)
    requires n <= |w| && Balanced(w[..n]) && st != []
    ensures Close(w, st) == Shift(Close(w[n..], st), n)
    decreases n
  {
    hide Close, Balanced;
    var b := w[..n];
    if n == 0 {
      assert w[n..] == w;
    } else if IsNeutral(w[0]) {
      var _ := BalancedCases(b);
      assert b[1..] == w[1..][..n - 1] && w[n..] == w[1..][n - 1..];
      BalancedSkips(w[1..], n - 1, st);
      CloseIgnores(w, st);
    } else {
      var k := BalancedCases(b);
      assert b[1..k] == w[1..][..k - 1] && b[k + 1..] == w[k + 1..][..n - k - 1];
      BalancedSkips(w[1..], k - 1, st + [w[0]]);
      BalancedSkips(w[k + 1..], n - k - 1, st);
      GroupSkips(w, k, n, st);
    }
  }

  lemma {:induction false} CloseRange(w: string, st: string)
    requires st != []
    ensures Close(w, st).Some? ==> 1 <= Close(w, st).value <= |w|
    decreases |w|
  {
    if w != [] && Step(w[0], st).Some? && Step(w[0], st).value != [] {
      CloseRange(w[1..], Step(w[0], st).value);
    }
  }

  /** Matching against a stack is matching its top part first, then the part below. */
  lemma {:induction false} CloseStack(w: string, st: string, t: string)
    requires st != [] && t != []
    ensures Close(w, t).Some? ==> Close(w, t).value <= |w|
    ensures Close(w, st + t) ==
            (match Close(w, t) case None => None case Some(m) => Shift(Close(w[m..], st), m))
    decreases |w|
  {
    CloseRange(w, t);
    if w != [] {
      assert (st + t)[|st + t| - 1] == t[|t| - 1];
      assert (st + t)[..|st + t| - 1] == st + t[..|t| - 1];
      assert (st + t) + [w[0]] == st + (t + [w[0]]);
      match Step(w[0], t)
      case None =>
      case Some(s) =>
        if s == [] {
          assert st + [] == st;
        } else {
          CloseStack(w[1..], st, s);
          match Close(w[1..], s)
          case None =>
          case Some(m) => assert w[1..][m..] == w[m + 1..];
        }
    }
  }

  lemma BalancedSplit(w: string, k: nat)
    requires Splits(w, k) && IsOpen(w[0]) && Balanced(w[1..k]) && Balanced(w[k + 1..])
    ensures Balanced(w)
  {
  }

  lemma {:induction false} CloseBalances(w: string, c: char, n: nat)
    requires IsOpen(c) && Close(w, [c]) == Some(n)
    ensures 1 <= n <= |w| && w[n - 1] == Swap(c) && Balanced(w[..n - 1])
    decreases |w|
  {
    CloseRange(w, [c]);
    var b := w[..n - 1];
    if IsNeutral(w[0]) {
      CloseBalances(w[1..], c, n - 1);
      assert b[1..] == w[1..][..n - 2];
    } else if IsOpen(w[0]) {
      var m := CloseNested(w, c, n);
      CloseBalances(w[1..], w[0], m);
      CloseBalances(w[m + 1..], c, n - m - 1);
      assert b[1..m] == w[1..][..m - 1];
      assert b[m + 1..] == w[m + 1..][..n - m - 2];
      BalancedSplit(b, m);
    }
  }

  lemma CloseNested(w: string, c: char, n: nat) returns (m: nat)
    requires w != [] && IsOpen(w[0]) && Close(w, [c]) == Some(n)
    ensures 1 <= m < |w| && m < n && Close(w[1..], [w[0]]) == Some(m)
    ensures Close(w[m + 1..], [c]) == Some(n - m - 1)
  {
    CloseOpens(w, [c]);
    CloseStack(w[1..], [c], [w[0]]);
    CloseRange(w[1..], [w[0]]);
    m := Close(w[1..], [w[0]]).value;
    assert w[1..][m..] == w[m + 1..];
  }

  /** The matcher finds exactly the bracket the grammar pairs with `c`. */
  lemma CloseIff(w: string, c: char, j: nat)
    requires IsOpen(c)
    ensures Close(w, [c]) == Some(j + 1) <==> j < |w| && w[j] == Swap(c) && Balanced(w[..j])
  {
    if Close(w, [c]) == Some(j + 1) {
      CloseBalances(w, c, j + 1);
    }
    if j < |w| && w[j] == Swap(c) && Balanced(w[..j]) {
      BalancedSkips(w, j, [c]);
    }
  }

  lemma {:induction false} RunThenClose(w: string, c: char, st: string)
    requires IsOpen(c) && Run(w, st) == Some([])
    ensures Close(w + [Swap(c)], [c] + st) == Some(|w| + 1)
    decreases |w|
  {
    var v := w + [Swap(c)];
    if w == [] {
      assert v == [Swap(c)] && [c] + st == [c];
    } else {
      assert v[1..] == w[1..] + [Swap(c)];
      var s := Step(w[0], st).value;
      assert st != [] ==> ([c] + st)[..|st|] == [c] + st[..|st| - 1];
      assert ([c] + st) + [w[0]] == [c] + (st + [w[0]]);
      RunThenClose(w[1..], c, s);
    }
  }

  lemma {:induction false} BalancedRuns(w: string, st: string)
    requires Balanced(w)
    ensures Run(w, st) == Some(st)
    decreases |w|
  {
    if w != [] {
      if IsNeutral(w[0]) {
        BalancedRuns(w[1..], st);
      } else {
        var k :| Splits(w, k) && Balanced(w[1..k]) && Balanced(w[k + 1..]);
        assert w[1..] == w[1..k] + w[k..];
        var st' := st + [w[0]];
        BalancedRuns(w[1..k], st');
        RunConcat(w[1..k], w[k..], st');
        assert w[k..][1..] == w[k + 1..];
        assert st'[..|st|] == st;
        BalancedRuns(w[k + 1..], st);
      }
    }
  }

  /** The grammar accepts exactly the words that leave an empty stack empty. */
  lemma BalancedIffRuns(w: string)
    ensures Balanced(w) <==> Run(w, []) == Some([])
  {
    if Balanced(w) {
      BalancedRuns(w, []);
    }
    if Run(w, []) == Some([]) {
      RunThenClose(w, '(', []);
      assert ['('] + [] == ['('];
      CloseIff(w + [')'], '(', |w|);
      assert (w + [')'])[..|w|] == w;
    }
  }

  // ----- Reading the text backwards -----

  /** The text read from its end, with every bracket turned round. */
  function Mirror(w: string): (m: string)
    ensures |m| == |w|
    ensures forall i :: 0 <= i < |w| ==> m[i] == Swap(w[|w| - 1 - i])
  {
    seq(|w|, i requires 0 <= i < |w| => Swap(w[|w| - 1 - i]))
  }

  lemma MirrorConcat(a: string, b: string)
    ensures Mirror(a + b) == Mirror(b) + Mirror(a)
  {
  }

  lemma {:induction false} BalancedConcat(a: string, b: string)
    requires Balanced(a) && Balanced(b)
    ensures Balanced(a + b)
  {
    BalancedIffRuns(a);
    BalancedIffRuns(b);
    RunConcat(a, b, []);
    BalancedIffRuns(a + b);
  }

  lemma BalancedGroup(o: char, b: string)
    requires IsOpen(o) && Balanced(b)
    ensures Balanced([o] + b + [Swap(o)])
  {
    var w, k := [o] + b + [Swap(o)], |b| + 1;
    assert Splits(w, k) && w[1..k] == b && w[k + 1..] == [];
  }

  /** The mirror image of a bracketed group followed by more text. */
  lemma MirrorGroup(w: string, k: int)
    requires 0 < k < |w|
    ensures Mirror(w) == Mirror(w[k + 1..]) + ([Swap(w[k])] + Mirror(w[1..k]) + [Swap(w[0])])
  {
  }

  lemma MirrorSplit(w: string, k: nat)
    requires Splits(w, k) && IsOpen(w[0])
    requires Balanced(Mirror(w[1..k])) && Balanced(Mirror(w[k + 1..]))
    ensures Balanced(Mirror(w))
  {
    BalancedGroup(w[0], Mirror(w[1..k]));
    MirrorGroup(w, k);
    BalancedConcat(Mirror(w[k + 1..]), [w[0]] + Mirror(w[1..k]) + [w[k]]);
    assert Swap(w[k]) == w[0];
  }

  lemma MirrorNeutral(w: string)
    requires w != [] && IsNeutral(w[0]) && Balanced(Mirror(w[1..]))
    ensures Balanced(Mirror(w))
  {
    BalancedIffRuns([w[0]]);
    BalancedConcat(Mirror(w[1..]), [w[0]]);
    assert Mirror(w) == Mirror(w[1..]) + [w[0]];
  }

  lemma {:induction false} BalancedMirror(w: string)
    requires Balanced(w)
    ensures Balanced(Mirror(w))
    decreases |w|
  {
    if w == [] {
      assert Mirror(w) == [];
    } else if IsNeutral(w[0]) {
      BalancedMirror(w[1..]);
      MirrorNeutral(w);
    } else {
      var k :| Splits(w, k) && Balanced(w[1..k]) && Balanced(w[k + 1..]);
      BalancedMirror(w[1..k]);
      BalancedMirror(w[k + 1..]);
      MirrorSplit(w, k);
    }
  }

  lemma MirrorTwice(w: string)
    ensures Mirror(Mirror(w)) == w
  {
  }

  lemma BalancedMirrorIff(w: string)
    ensures Balanced(w) <==> Balanced(Mirror(w))
  {
    MirrorTwice(w);
    if Balanced(w) {
      BalancedMirror(w);
    } else if Balanced(Mirror(w)) {
      BalancedMirror(Mirror(w));
    }
  }

  /** Pairs of brackets are the same pairs when the text is read backwards. */
  lemma MatchMirror(w: string, i: int, j: int)
    requires 0 <= i < j < |w|
    ensures MatchAt(w, i, j) <==> MatchAt(Mirror(w), |w| - 1 - j, |w| - 1 - i)
  {
    var inner := w[i + 1..j];
    assert Mirror(w)[|w| - j..|w| - 1 - i] == Mirror(inner);
    BalancedMirrorIff(inner);
  }

  /** The matcher, started behind an open bracket, finds that bracket's partner and no other. */
  lemma CloseFindsMatch(w: string, i: nat, j: nat)
    requires i < |w| && IsOpen(w[i])
    ensures Close(w[i + 1..], [w[i]]) == Some(j) <==> MatchAt(w, i, i + j)
  {
    CloseRange(w[i + 1..], [w[i]]);
    if j > 0 {
      CloseIff(w[i + 1..], w[i], j - 1);
      if i + j < |w| {
        assert w[i + 1..][..j - 1] == w[i + 1..i + j];
      }
    }
  }

  lemma MatchIffCloses(w: string, i: nat)
    requires i < |w| && IsOpen(w[i])
    ensures forall j :: MatchAt(w, i, j) <==> j >= i && Close(w[i + 1..], [w[i]]) == Some(j - i)
  {
    forall j
      ensures MatchAt(w, i, j) <==> j >= i && Close(w[i + 1..], [w[i]]) == Some(j - i)
    {
      if j >= i {
        CloseFindsMatch(w, i, j - i);
      }
    }
  }

  lemma PartnerUnique(w: string, i: int, j: int, j': int)
    requires MatchAt(w, i, j) && MatchAt(w, i, j')
    ensures j == j'
  {
    CloseFindsMatch(w, i, j - i);
    CloseFindsMatch(w, i, j' - i);
  }

  /** A bracket has at most one partner, in either direction. */
  lemma MatchUnique(w: string, i: int, j: int, i': int, j': int)
    requires MatchAt(w, i, j) && MatchAt(w, i', j')
    ensures i == i' <==> j == j'
  {
    if i == i' {
      PartnerUnique(w, i, j, j');
    }
    if j == j' {
      MatchMirror(w, i, j);
      MatchMirror(w, i', j');
      PartnerUnique(Mirror(w), |w| - 1 - j, |w| - 1 - i, |w| - 1 - i');
    }
  }
}
