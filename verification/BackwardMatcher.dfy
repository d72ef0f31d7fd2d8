/**
 The backward scanner of cpplint: `FindStartOfExpressionInLine` and `ReverseCloseExpression`.

 It is not the forward scanner run backwards. It guesses differently about angle brackets,
 and after an operator it steps over one extra character.
 */
module BackwardMatcher {
  import opened Options
  import opened Sequences
  import opened Brackets
  import opened Lines
  import opened ForwardMatcher

  /** The `>` at `i` belongs to `->`, to a spaced `>=` or to an operator name. */
  predicate IsGreaterOperator(line: string, i: nat)
    requires i < |line|
  {
    i > 0 && (line[i - 1] == '-' || SpacedGreaterEqual(line, i - 1) || EndsWithOperator(line[..i]))
  }

  /** The scan steps over the character before `i` as well. */
  predicate SkipsPrevious(line: string, i: nat)
    requires i < |line|
  {
    || (line[i] == '>' && IsGreaterOperator(line, i))
    || (line[i] == '<' && IsShift(line, i))
  }

  function StartStep(line: string, i: nat, stack: string): Scan
    requires i < |line|
  {
    var c := line[i];
    if IsClose(c) then
      Pending(stack + [c])
    else if c == '>' then
      if IsGreaterOperator(line, i) then Pending(stack) else Pending(stack + ['>'])
    else if c == '<' then
      if IsShift(line, i) || stack == [] || Top(stack) != '>' then Pending(stack)
      else if |stack| == 1 then Found(i)
      else Pending(Pop(stack))
    else if IsOpen(c) then
      var s := DropWhile(stack, '>');
      if s == [] then Broken
      else if Swap(Top(s)) != c then Broken
      else if |s| == 1 then Found(i)
      else Pending(Pop(s))
    else if c == ';' then
      var s := DropWhile(stack, '>');
      if s == [] then Broken else Pending(s)
    else
      Pending(stack)
  }

  function ScanStart(line: string, i: int, stack: string): Scan
    requires -1 <= i < |line|
    decreases i + 1
  {
    if i < 0 then Pending(stack)
    else
      var r := StartStep(line, i, stack);
      if r.Pending? then ScanStart(line, if SkipsPrevious(line, i) then i - 2 else i - 1, r.stack) else r
  }

  method FindStartOfExpressionInLine(line: string, endpos: int, pending: string) returns (r: Scan)
    requires -1 <= endpos < |line|
    ensures r == ScanStart(line, endpos, pending)
  {
    var stack := pending;
    var i := endpos;
    while i >= 0
      invariant -1 <= i < |line|
      invariant ScanStart(line, endpos, pending) == ScanStart(line, i, stack)
      decreases i
    {
      var c := line[i];
      if IsClose(c) {
        stack := stack + [c];
      } else if c == '>' {
        if i > 0 && (line[i - 1] == '-' || SpacedGreaterEqual(line, i - 1) || EndsWithOperator(line[..i])) {
          i := i - 1;
        } else {
          stack := stack + ['>'];
        }
      } else if c == '<' {
        if i > 0 && line[i - 1] == '<' {
          i := i - 1;
        } else if stack != [] && Top(stack) == '>' {
          stack := Pop(stack);
          if stack == [] {
            return Found(i);
          }
        }
      } else if IsOpen(c) {
        stack := DropAngles(stack, '>');
        if stack == [] {
          return Broken;
        }
        if Swap(Top(stack)) == c {
          stack := Pop(stack);
          if stack == [] {
            return Found(i);
          }
        } else {
          return Broken;
        }
      } else if c == ';' {
        stack := DropAngles(stack, '>');
        if stack == [] {
          return Broken;
        }
      }
      i := i - 1;
    }
    return Pending(stack);
  }

  function OpenFrom(lines: seq<string>, l: nat, i: int, stack: string): (r: Place)
    requires l < |lines| && -1 <= i < |lines[l]|
    ensures r.At? ==> r.line <= l
  {
    match ScanStart(lines[l], i, stack)
    case Found(q) => At(l, q)
    case Broken => Nowhere
    case Pending(s) => if s != [] && l > 0 then OpenFrom(lines, l - 1, |lines[l - 1]| - 1, s) else Nowhere
  }

  /** The first line of the file that is scanned when no start is found. */
  function FirstScanned(lines: seq<string>, l: nat, i: int, stack: string): (n: nat)
    requires l < |lines| && -1 <= i < |lines[l]|
    ensures n <= l
  {
    var r := ScanStart(lines[l], i, stack);
    if r.Pending? && r.stack != [] && l > 0 then FirstScanned(lines, l - 1, |lines[l - 1]| - 1, r.stack) else l
  }

  /** The place of the bracket that opens the expression ending at line `l`, column `p`. */
  function ReverseCloseExpressionSpec(lines: seq<string>, l: nat, p: nat): Place
    requires ValidPlace(lines, l, p)
  {
    if !(IsClose(lines[l][p]) || lines[l][p] == '>') then Nowhere else OpenFrom(lines, l, p, [])
  }

  method ReverseCloseExpression(lines: seq<string>, linenum: nat, pos: nat)
    returns (line: string, startLine: nat, startPos: int)
    requires ValidPlace(lines, linenum, pos)
    ensures match ReverseCloseExpressionSpec(lines, linenum, pos)
            case At(l, q) => startLine == l < |lines| && startPos == q && line == lines[l]
            case Nowhere =>
              && startLine == 0 && startPos == -1
              && line == (if IsClose(lines[linenum][pos]) || lines[linenum][pos] == '>'
                          then lines[FirstScanned(lines, linenum, pos, [])] else lines[linenum])
  {
    line := lines[linenum];
    if !(IsClose(line[pos]) || line[pos] == '>') {
      return line, 0, -1;
    }
    var n := linenum;
    var r := FindStartOfExpressionInLine(line, pos, []);
    if r.Found? {
      return line, n, r.pos;
    }
    ghost var goal, first := OpenFrom(lines, linenum, pos, []), FirstScanned(lines, linenum, pos, []);
    while r.Pending? && r.stack != [] && n > 0
      invariant n < |lines| && line == lines[n] && !r.Found?
      invariant goal == if r.Pending? && r.stack != [] && n > 0
                        then OpenFrom(lines, n - 1, |lines[n - 1]| - 1, r.stack) else Nowhere
      invariant first == if r.Pending? && r.stack != [] && n > 0
                         then FirstScanned(lines, n - 1, |lines[n - 1]| - 1, r.stack) else n
      decreases n
    {
      n := n - 1;
      line := lines[n];
      r := FindStartOfExpressionInLine(line, |line| - 1, r.stack);
      if r.Found? {
        return line, n, r.pos;
      }
    }
    return line, 0, -1;
  }

  // ----- Refinement of the textbook matcher on the mirrored text -----

  /** The closing brackets of the stack, each replaced by the bracket it waits for. */
  function Faced(stack: string): (f: string)
    ensures |f| == |Without(stack, '>')|
    ensures forall k :: 0 <= k < |f| ==> f[k] == Swap(Without(stack, '>')[k])
  {
    var s := Without(stack, '>');
    seq(|s|, k requires 0 <= k < |s| => Swap(s[k]))
  }

  /** The stack still has, at its bottom, the bracket the scan started from. */
  predicate IsClosedBased(s: string) {
    s != [] && IsClose(s[0]) && forall k :: 0 <= k < |s| ==> IsClose(s[k]) || s[k] == '>'
  }

  lemma SwapTwice(c: char)
    ensures Swap(Swap(c)) == c && (IsOpen(Swap(c)) <==> IsClose(c)) && (IsClose(Swap(c)) <==> IsOpen(c))
  {
  }

  lemma FacedPush(stack: string, c: char)
    ensures Faced(stack + [c]) == if c == '>' then Faced(stack) else Faced(stack) + [Swap(c)]
  {
    WithoutPush(stack, c, '>');
  }

  lemma FacedPop(s: string)
    requires s != []
    ensures Top(s) == '>' ==> Faced(Pop(s)) == Faced(s)
    ensures Top(s) != '>' ==>
              Faced(s) != [] && Top(Faced(s)) == Swap(Top(s)) && Faced(Pop(s)) == Pop(Faced(s))
  {
    hide Without;
    WithoutPop(s, '>');
  }

  lemma FacedDrop(s: string)
    ensures Faced(DropWhile(s, '>')) == Faced(s)
    ensures DropWhile(s, '>') <= s
    ensures DropWhile(s, '>') != [] ==> Top(DropWhile(s, '>')) != '>'
  {
    hide Without, DropWhile;
    DropWhileWithout(s, '>');
  }

  lemma FacedBase(s: string)
    requires IsClosedBased(s)
    ensures Faced(s) != [] && (|s| == 1 ==> Faced(s) == [Swap(s[0])])
    ensures DropWhile(s, '>') != [] && DropWhile(s, '>')[0] == s[0]
  {
    hide Without, DropWhile;
    WithoutBase(s, '>');
    DropWhileBased(s, '>');
  }

  lemma OpenerSteps(c: char, stack: string)
    requires IsOpen(c)
    ensures var s := DropWhile(stack, '>');
            Step(Swap(c), Faced(stack)) ==
            if s != [] && Swap(Top(s)) == c then Some(Faced(Pop(s))) else None
  {
    hide Faced, DropWhile;
    FacedDrop(stack);
    SwapTwice(c);
    var s := DropWhile(stack, '>');
    if s != [] {
      FacedPop(s);
      SwapTwice(Top(s));
    } else {
      FacedNil();
    }
  }

  lemma FacedNil()
    ensures Faced([]) == []
  {
  }

  /** On a stack based on a closing bracket, one character acts as in the textbook matcher. */
  lemma StartStepCloses(line: string, i: nat, stack: string)
    requires i < |line| && IsClosedBased(stack)
    ensures match StartStep(line, i, stack)
            case Pending(s) => IsClosedBased(s) && Step(Swap(line[i]), Faced(stack)) == Some(Faced(s))
            case Found(q) => q == i && Step(Swap(line[i]), Faced(stack)) == Some([])
            case Broken => Step(Swap(line[i]), Faced(stack)) == None
  {
    hide Faced, DropWhile, Without, IsShift, IsGreaterOperator;
    var c := line[i];
    SwapTwice(c);
    FacedNil();
    FacedBase(stack);
    FacedDrop(stack);
    FacedPop(stack);
    FacedPush(stack, c);
    if IsOpen(c) {
      OpenerSteps(c, stack);
    }
  }

  /** The extra character stepped over is never a bracket. */
  lemma SkippedIsNeutral(line: string, i: nat)
    requires i < |line| && SkipsPrevious(line, i)
    ensures i > 0 && IsNeutral(line[i - 1]) && IsNeutral(line[i])
  {
    hide EndsWithOperator;
    if i > 0 && EndsWithOperator(line[..i]) {
      EndsWithOperatorTail(line[..i]);
    }
  }

  lemma {:induction false} ScanStartCloses(line: string, i: int, stack: string, rest: string)
    requires -1 <= i < |line| && IsClosedBased(stack)
    ensures Faced(stack) != []
    ensures match ScanStart(line, i, stack)
            case Found(q) =>
              q <= i && Close(Mirror(line[..i + 1]) + rest, Faced(stack)) == Some(i + 1 - q)
            case Broken => Close(Mirror(line[..i + 1]) + rest, Faced(stack)) == None
            case Pending(s) =>
              && IsClosedBased(s) && Faced(s) != []
              && Close(Mirror(line[..i + 1]) + rest, Faced(stack)) == Shift(Close(rest, Faced(s)), i + 1)
    decreases i + 1
  {
    hide Faced, StartStep, SkipsPrevious, Close;
    FacedBase(stack);
    if i < 0 {
      assert Mirror(line[..i + 1]) + rest == rest;
    } else {
      StartStepCloses(line, i, stack);
      var r := StartStep(line, i, stack);
      var w := Mirror(line[..i + 1]) + rest;
      assert w[0] == Swap(line[i]);
      assert w[1..] == Mirror(line[..i]) + rest;
      CloseUnfold(w, Faced(stack));
      if r.Pending? {
        FacedBase(r.stack);
        if SkipsPrevious(line, i) {
          SkippedIsNeutral(line, i);
          var v := w[1..];
          assert v[0] == Swap(line[i - 1]) == line[i - 1];
          assert v[1..] == Mirror(line[..i - 1]) + rest;
          CloseIgnores(v, Faced(r.stack));
          ScanStartCloses(line, i - 2, r.stack, rest);
        } else {
          ScanStartCloses(line, i - 1, r.stack, rest);
        }
      }
    }
  }

  lemma CloseUnfold(w: string, st: string)
    requires w != [] && st != []
    ensures Close(w, st) == match Step(w[0], st)
                            case None => None
                            case Some(s) => if s == [] then Some(1) else Shift(Close(w[1..], s), 1)
  {
  }

  /** The place `r`, reached backwards from just after line `l`, column `i`. */
  ghost predicate OpensAt(lines: seq<string>, l: nat, i: int, r: Place, c: Option<nat>)
    requires l < |lines| && -1 <= i
  {
    match r
    case Nowhere => c == None
    case At(n, q) =>
      && n <= l && q < |lines[n]|
      && c.Some? && Offset(lines, n, q) + c.value == Offset(lines, l, i + 1)
  }

  lemma MirrorUpTo(lines: seq<string>, l: nat, i: int)
    requires l < |lines| && -1 <= i < |lines[l]|
    ensures Offset(lines, l, i + 1) <= |Flat(lines)|
    ensures Mirror(Flat(lines)[..Offset(lines, l, i + 1)])
            == Mirror(lines[l][..i + 1]) + Mirror(Flat(lines)[..Offset(lines, l, 0)])
  {
    FlatFrom(lines, l, 0);
    var w, o := Flat(lines), Offset(lines, l, 0);
    hide Flat;
    var line := lines[l];
    assert line[0..] == line;
    assert w == w[..o] + w[o..];
    assert w[..o + i + 1] == w[..o] + line[..i + 1];
    MirrorConcat(w[..o], line[..i + 1]);
  }

  lemma {:induction false} OpenFromCloses(lines: seq<string>, l: nat, i: int, stack: string)
    requires l < |lines| && -1 <= i < |lines[l]| && IsClosedBased(stack)
    ensures Faced(stack) != [] && Offset(lines, l, i + 1) <= |Flat(lines)|
    ensures OpensAt(lines, l, i, OpenFrom(lines, l, i, stack),
                    Close(Mirror(Flat(lines)[..Offset(lines, l, i + 1)]), Faced(stack)))
    decreases l
  {
    hide Close, Faced, Flat, ScanStart;
    FacedBase(stack);
    MirrorUpTo(lines, l, i);
    var rest := Mirror(Flat(lines)[..Offset(lines, l, 0)]);
    ScanStartCloses(lines[l], i, stack, rest);
    match ScanStart(lines[l], i, stack)
    case Found(q) =>
    case Broken =>
    case Pending(s) =>
      if l > 0 {
        OffsetNextLine(lines, l - 1);
        OpenFromCloses(lines, l - 1, |lines[l - 1]| - 1, s);
      } else {
        FlatNil();
        assert lines[..0] == [];
        CloseRange(rest, Faced(s));
      }
  }

  lemma FlatNil()
    ensures Flat([]) == []
  {
  }

  /** The matcher on the mirrored text finds the opening partner of the bracket at `j`. */
  lemma MatchIffOpens(w: string, j: nat)
    requires j < |w| && IsClose(w[j])
    ensures forall i :: MatchAt(w, i, j) <==> i <= j && Close(Mirror(w[..j]), [Swap(w[j])]) == Some(j - i)
  {
    forall i
      ensures MatchAt(w, i, j) <==> i <= j && Close(Mirror(w[..j]), [Swap(w[j])]) == Some(j - i)
    {
      MatchIffOpensAt(w, j, i);
    }
  }

  lemma MatchIffOpensAt(w: string, j: nat, i: int)
    requires j < |w| && IsClose(w[j])
    ensures MatchAt(w, i, j) <==> i <= j && Close(Mirror(w[..j]), [Swap(w[j])]) == Some(j - i)
  {
    hide Balanced, Close;
    var m, o := Mirror(w), |w| - 1 - j;
    assert m[o] == Swap(w[j]);
    assert m[o + 1..] == Mirror(w[..j]);
    SwapTwice(w[j]);
    MatchIffCloses(m, o);
    if 0 <= i < j {
      MatchMirror(w, i, j);
    }
    if i <= j {
      CloseRange(Mirror(w[..j]), [Swap(w[j])]);
    }
  }

  /**
   From a closing round, square or curly bracket, `ReverseCloseExpression` succeeds exactly when
   that bracket has a partner in the flattened file, and returns the place of that partner.
   */
  lemma ReverseCloseExpressionMatches(lines: seq<string>, l: nat, p: nat)
    requires ValidPlace(lines, l, p) && IsClose(lines[l][p])
    ensures var r := ReverseCloseExpressionSpec(lines, l, p);
            r.At? ==> && r.line <= l && r.pos < |lines[r.line]|
                      && MatchAt(Flat(lines), Offset(lines, r.line, r.pos), Offset(lines, l, p))
    ensures ReverseCloseExpressionSpec(lines, l, p).Nowhere? ==>
              forall i :: !MatchAt(Flat(lines), i, Offset(lines, l, p))
  {
    hide Flat, Close, MatchAt, Faced;
    var w, o, c := Flat(lines), Offset(lines, l, p), lines[l][p];
    FlatAt(lines, l, p);
    ClosesOwnStack(lines, l, p);
    OpenFromCloses(lines, l, p - 1, [c]);
    FacedBase([c]);
    MatchIffOpens(w, o);
    var r := ReverseCloseExpressionSpec(lines, l, p);
    if r.At? {
      assert MatchAt(w, Offset(lines, r.line, r.pos), o);
    }
  }

  lemma ClosesOwnStack(lines: seq<string>, l: nat, p: nat)
    requires ValidPlace(lines, l, p) && IsClose(lines[l][p])
    ensures ReverseCloseExpressionSpec(lines, l, p) == OpenFrom(lines, l, p - 1, [lines[l][p]])
  {
    assert [] + [lines[l][p]] == [lines[l][p]];
    assert ScanStart(lines[l], p, []) == ScanStart(lines[l], p - 1, [lines[l][p]]);
  }
}
