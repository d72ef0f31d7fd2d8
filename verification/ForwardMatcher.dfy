/**
 The forward scanner of cpplint: `FindEndOfExpressionInLine` and `CloseExpression`.

 The scanner keeps one stack of pending `(`, `[`, `{` and `<`. A `<` on the stack is only
 a guess that a template argument list has begun. `ScanEnd` and `CloseFrom` say what the
 two procedures compute.
 */
module ForwardMatcher {
  import opened Options
  import opened Sequences
  import opened Brackets
  import opened Lines

  /** The three ways a scan of one line ends: `(pos, None)`, `(-1, None)` and `(-1, stack)`. */
  datatype Scan = Found(pos: nat) | Broken | Pending(stack: string)

  /** The `<` at `i` is the second half of a left shift. */
  predicate IsShift(line: string, i: nat)
    requires i < |line|
  {
    i > 0 && line[i - 1] == '<'
  }

  /** The `<` at `i` belongs to the name `operator<`. */
  predicate IsOperatorLess(line: string, i: nat)
    requires i < |line|
  {
    i > 0 && EndsWithOperator(line[..i])
  }

  /** The `>` at `i` belongs to `->` or to an operator name. */
  predicate IsArrowOrOperator(line: string, i: nat)
    requires i < |line|
  {
    i > 0 && (line[i - 1] == '-' || EndsWithOperator(line[..i - 1]))
  }

  /** What one character does; `Pending` means that the scan goes on. */
  function EndStep(line: string, i: nat, stack: string): Scan
    requires i < |line|
  {
    var c := line[i];
    if IsOpen(c) then
      Pending(stack + [c])
    else if c == '<' then
      if IsShift(line, i) then
        if stack != [] && Top(stack) == '<' then
          if |stack| == 1 then Broken else Pending(Pop(stack))
        else Pending(stack)
      else if IsOperatorLess(line, i) then Pending(stack)
      else Pending(stack + ['<'])
    else if IsClose(c) then
      var s := DropWhile(stack, '<');
      if s == [] then Broken
      else if Swap(Top(s)) != c then Broken
      else if |s| == 1 then Found(i + 1)
      else Pending(Pop(s))
    else if c == '>' then
      if IsArrowOrOperator(line, i) || stack == [] || Top(stack) != '<' then Pending(stack)
      else if |stack| == 1 then Found(i + 1)
      else Pending(Pop(stack))
    else if c == ';' then
      var s := DropWhile(stack, '<');
      if s == [] then Broken else Pending(s)
    else
      Pending(stack)
  }

  function ScanEnd(line: string, i: nat, stack: string): Scan
    decreases |line| - i
  {
    if i >= |line| then Pending(stack)
    else
      var r := EndStep(line, i, stack);
      if r.Pending? then ScanEnd(line, i + 1, r.stack) else r
  }

  method FindEndOfExpressionInLine(line: string, startpos: nat, pending: string) returns (r: Scan)
    ensures r == ScanEnd(line, startpos, pending)
  {
    var stack := pending;
    var i := startpos;
    while i < |line|
      invariant ScanEnd(line, startpos, pending) == ScanEnd(line, i, stack)
      decreases |line| - i
    {
      var c := line[i];
      if IsOpen(c) {
        stack := stack + [c];
      } else if c == '<' {
        if i > 0 && line[i - 1] == '<' {
          if stack != [] && Top(stack) == '<' {
            stack := Pop(stack);
            if stack == [] {
              return Broken;
            }
          }
        } else if i > 0 && EndsWithOperator(line[..i]) {
          i := i + 1;
          continue;
        } else {
          stack := stack + ['<'];
        }
      } else if IsClose(c) {
        stack := DropAngles(stack, '<');
        if stack == [] {
          return Broken;
        }
        if Swap(Top(stack)) == c {
          stack := Pop(stack);
          if stack == [] {
            return Found(i + 1);
          }
        } else {
          return Broken;
        }
      } else if c == '>' {
        if i > 0 && (line[i - 1] == '-' || EndsWithOperator(line[..i - 1])) {
          i := i + 1;
          continue;
        }
        if stack != [] && Top(stack) == '<' {
          stack := Pop(stack);
          if stack == [] {
            return Found(i + 1);
          }
        }
      } else if c == ';' {
        stack := DropAngles(stack, '<');
        if stack == [] {
          return Broken;
        }
      }
      i := i + 1;
    }
    return Pending(stack);
  }

  function CloseFrom(lines: seq<string>, l: nat, i: nat, stack: string): (r: Place)
    requires l < |lines|
    ensures r.At? ==> l <= r.line < |lines|
    decreases |lines| - l
  {
    match ScanEnd(lines[l], i, stack)
    case Found(q) => At(l, q)
    case Broken => Nowhere
    case Pending(s) => if s != [] && l + 1 < |lines| then CloseFrom(lines, l + 1, 0, s) else Nowhere
  }

  /** The last line that is scanned when no end is found. */
  function LastScanned(lines: seq<string>, l: nat, i: nat, stack: string): (n: nat)
    requires l < |lines|
    ensures l <= n < |lines|
    decreases |lines| - l
  {
    var r := ScanEnd(lines[l], i, stack);
    if r.Pending? && r.stack != [] && l + 1 < |lines| then LastScanned(lines, l + 1, 0, r.stack) else l
  }

  /** `<<` and `<=` at `p` are operators. */
  predicate IsLessOperator(line: string, p: nat)
    requires p < |line|
  {
    line[p] == '<' && p + 1 < |line| && (line[p + 1] == '<' || line[p + 1] == '=')
  }

  /** The place just past the end of the expression opened at line `l`, column `p`. */
  function CloseExpressionSpec(lines: seq<string>, l: nat, p: nat): Place
    requires ValidPlace(lines, l, p)
  {
    if StartsNothing(lines[l], p) then Nowhere else CloseFrom(lines, l, p, [])
  }

  /** No expression begins at `p`. */
  predicate StartsNothing(line: string, p: nat)
    requires p < |line|
  {
    !(IsOpen(line[p]) || line[p] == '<') || IsLessOperator(line, p)
  }

  method CloseExpression(lines: seq<string>, linenum: nat, pos: nat)
    returns (line: string, endLine: nat, endPos: int)
    requires ValidPlace(lines, linenum, pos)
    ensures match CloseExpressionSpec(lines, linenum, pos)
            case At(l, q) => endLine == l < |lines| && endPos == q && line == lines[l]
            case Nowhere =>
              && endLine == |lines| && endPos == -1
              && line == (if StartsNothing(lines[linenum], pos) then lines[linenum]
                          else lines[LastScanned(lines, linenum, pos, [])])
  {
    line := lines[linenum];
    var c := line[pos];
    if !(IsOpen(c) || c == '<') || IsLessOperator(line, pos) {
      return line, |lines|, -1;
    }
    var n := linenum;
    var r := FindEndOfExpressionInLine(line, pos, []);
    if r.Found? {
      return line, n, r.pos;
    }
    ghost var goal, last := CloseFrom(lines, linenum, pos, []), LastScanned(lines, linenum, pos, []);
    while r.Pending? && r.stack != [] && n < |lines| - 1
      invariant n < |lines| && line == lines[n] && !r.Found?
      invariant goal == if r.Pending? && r.stack != [] && n + 1 < |lines|
                        then CloseFrom(lines, n + 1, 0, r.stack) else Nowhere
      invariant last == if r.Pending? && r.stack != [] && n + 1 < |lines|
                        then LastScanned(lines, n + 1, 0, r.stack) else n
      decreases |lines| - n
    {
      n := n + 1;
      line := lines[n];
      r := FindEndOfExpressionInLine(line, 0, r.stack);
      if r.Found? {
        return line, n, r.pos;
      }
    }
    return line, |lines|, -1;
  }

  // ----- Refinement of the textbook matcher -----

  predicate IsPendingStack(s: string) {
    forall k :: 0 <= k < |s| ==> IsOpen(s[k]) || s[k] == '<'
  }

  /** The stack still has, at its bottom, the bracket the scan started from. */
  predicate IsBased(s: string) {
    s != [] && IsOpen(s[0]) && IsPendingStack(s)
  }

  /** One character acts on the brackets of the stack as in the textbook matcher. */
  lemma EndStepRuns(line: string, i: nat, stack: string)
    requires i < |line| && IsPendingStack(stack)
    ensures match EndStep(line, i, stack)
            case Pending(s) => IsPendingStack(s) && Step(line[i], Without(stack, '<')) == Some(Without(s, '<'))
            case Found(q) => q == i + 1 && Step(line[i], Without(stack, '<')) == Some([])
            case Broken => true
  {
    hide Without, DropWhile, IsShift, IsOperatorLess, IsArrowOrOperator;
    var c := line[i];
    WithoutNil('<');
    DropWhileWithout(stack, '<');
    if IsOpen(c) || c == '<' {
      WithoutPush(stack, c, '<');
    }
    if stack != [] {
      WithoutPop(stack, '<');
    }
    if IsClose(c) {
      CloserSteps(c, stack, '<');
    }
  }

  lemma EndStepBased(line: string, i: nat, stack: string)
    requires i < |line| && IsBased(stack)
    ensures match EndStep(line, i, stack)
            case Pending(s) => IsBased(s)
            case Found(q) => IsClose(line[i])
            case Broken => Step(line[i], Without(stack, '<')) == None
  {
    hide Without, DropWhile, IsShift, IsOperatorLess, IsArrowOrOperator;
    DropWhileWithout(stack, '<');
    DropWhileBased(stack, '<');
    if IsClose(line[i]) {
      CloserSteps(line[i], stack, '<');
    }
  }

  lemma {:induction false} ScanEndRuns(line: string, i: nat, stack: string)
    requires i <= |line| && IsPendingStack(stack)
    ensures match ScanEnd(line, i, stack)
            case Pending(s) =>
              IsPendingStack(s) && Run(line[i..], Without(stack, '<')) == Some(Without(s, '<'))
            case Found(q) =>
              i < q <= |line| && Run(line[i..q], Without(stack, '<')) == Some([])
            case Broken => true
    decreases |line| - i
  {
    if i < |line| {
      EndStepRuns(line, i, stack);
      var r := EndStep(line, i, stack);
      assert line[i..][1..] == line[i + 1..];
      if r.Pending? {
        ScanEndRuns(line, i + 1, r.stack);
        var t := ScanEnd(line, i + 1, r.stack);
        if t.Found? {
          assert line[i..t.pos][1..] == line[i + 1..t.pos];
        }
      } else if r.Found? {
        assert line[i..i + 1][1..] == [];
      }
    }
  }

  /** On a stack based on a bracket the scan is the textbook matcher, whatever text follows. */
  lemma {:induction false} ScanEndCloses(line: string, i: nat, stack: string, rest: string)
    requires i <= |line| && IsBased(stack)
    ensures Without(stack, '<') != []
    ensures match ScanEnd(line, i, stack)
            case Found(q) => i < q <= |line| && Close(line[i..] + rest, Without(stack, '<')) == Some(q - i)
            case Broken => Close(line[i..] + rest, Without(stack, '<')) == None
            case Pending(s) =>
              && IsBased(s) && Without(s, '<') != []
              && Close(line[i..] + rest, Without(stack, '<')) == Shift(Close(rest, Without(s, '<')), |line| - i)
    decreases |line| - i
  {
    hide Without, EndStep;
    WithoutBase(stack, '<');
    if i == |line| {
      assert line[i..] + rest == rest;
    } else {
      EndStepRuns(line, i, stack);
      EndStepBased(line, i, stack);
      var r := EndStep(line, i, stack);
      assert (line[i..] + rest)[1..] == line[i + 1..] + rest;
      if r.Pending? {
        ScanEndCloses(line, i + 1, r.stack, rest);
      }
    }
  }

  /** The place `r`, reached from line `l`, column `i`, is the one the textbook matcher reports. */
  ghost predicate ClosesAt(lines: seq<string>, l: nat, i: nat, r: Place, c: Option<nat>)
    requires l < |lines|
  {
    match r
    case Nowhere => c == None
    case At(n, q) =>
      && l <= n < |lines| && 1 <= q <= |lines[n]|
      && c.Some? && Offset(lines, n, q) == Offset(lines, l, i) + c.value
  }

  lemma {:induction false} CloseFromCloses(lines: seq<string>, l: nat, i: nat, stack: string)
    requires l < |lines| && i <= |lines[l]| && IsBased(stack)
    ensures Without(stack, '<') != []
    ensures Offset(lines, l, i) <= |Flat(lines)|
    ensures ClosesAt(lines, l, i, CloseFrom(lines, l, i, stack),
                     Close(Flat(lines)[Offset(lines, l, i)..], Without(stack, '<')))
    decreases |lines| - l
  {
    hide Close;
    var rest := Flat(lines[l + 1..]);
    ScanEndCloses(lines[l], i, stack, rest);
    FlatFrom(lines, l, i);
    OffsetNextLine(lines, l);
    match ScanEnd(lines[l], i, stack)
    case Found(q) =>
    case Broken =>
    case Pending(s) =>
      if l + 1 < |lines| {
        CloseFromCloses(lines, l + 1, 0, s);
        FlatFrom(lines, l + 1, 0);
        assert lines[l + 1][0..] + Flat(lines[l + 2..]) == rest;
      } else {
        assert rest == [];
        CloseRange(rest, Without(s, '<'));
      }
  }

  /**
   From a round, square or curly bracket, `CloseExpression` succeeds exactly when that bracket
   has a partner in the flattened file, and returns the place just past that partner. Angle
   brackets, shifts, arrows, semicolons and operator names in between make no difference.
   */
  lemma CloseExpressionMatches(lines: seq<string>, l: nat, p: nat)
    requires ValidPlace(lines, l, p) && IsOpen(lines[l][p])
    ensures var r := CloseExpressionSpec(lines, l, p);
            r.At? ==> && l <= r.line < |lines| && 1 <= r.pos <= |lines[r.line]|
                      && MatchAt(Flat(lines), Offset(lines, l, p), Offset(lines, r.line, r.pos - 1))
    ensures CloseExpressionSpec(lines, l, p).Nowhere? ==>
              forall j :: !MatchAt(Flat(lines), Offset(lines, l, p), j)
  {
    hide Flat, Close, MatchAt;
    var w, o, c := Flat(lines), Offset(lines, l, p), lines[l][p];
    FlatAt(lines, l, p);
    OpensOwnStack(lines, l, p);
    CloseFromCloses(lines, l, p + 1, [c]);
    WithoutBase([c], '<');
    MatchIffCloses(w, o);
    var r := CloseExpressionSpec(lines, l, p);
    if r.At? {
      assert MatchAt(w, o, Offset(lines, r.line, r.pos) - 1);
    }
  }

  /** The scan pushes the bracket it starts from. */
  lemma OpensOwnStack(lines: seq<string>, l: nat, p: nat)
    requires ValidPlace(lines, l, p) && IsOpen(lines[l][p])
    ensures CloseExpressionSpec(lines, l, p) == CloseFrom(lines, l, p + 1, [lines[l][p]])
  {
    assert [] + [lines[l][p]] == [lines[l][p]];
    assert ScanEnd(lines[l], p, []) == ScanEnd(lines[l], p + 1, [lines[l][p]]);
  }

  // ----- Starting from an angle bracket -----

  lemma {:induction false} CloseFromRuns(lines: seq<string>, l: nat, i: nat, stack: string)
    requires l < |lines| && i <= |lines[l]| && IsPendingStack(stack)
    ensures var r := CloseFrom(lines, l, i, stack);
            r.At? ==> && l <= r.line < |lines| && 1 <= r.pos <= |lines[r.line]|
                      && Offset(lines, l, i) < Offset(lines, r.line, r.pos) <= |Flat(lines)|
                      && Run(Flat(lines)[Offset(lines, l, i)..Offset(lines, r.line, r.pos)],
                             Without(stack, '<')) == Some([])
    decreases |lines| - l
  {
    hide Run;
    ScanEndRuns(lines[l], i, stack);
    FlatFrom(lines, l, i);
    OffsetNextLine(lines, l);
    var w, o := Flat(lines), Offset(lines, l, i);
    match ScanEnd(lines[l], i, stack)
    case Found(q) =>
      OffsetBound(lines, l, q);
      assert w[o..Offset(lines, l, q)] == lines[l][i..q];
    case Broken =>
    case Pending(s) =>
      if s != [] && l + 1 < |lines| {
        CloseFromRuns(lines, l + 1, 0, s);
        var r := CloseFrom(lines, l + 1, 0, s);
        if r.At? {
          var o', e := Offset(lines, l + 1, 0), Offset(lines, r.line, r.pos);
          assert w[o..e] == lines[l][i..] + w[o'..e];
          RunConcat(lines[l][i..], w[o'..e], Without(stack, '<'));
        }
      }
  }

  /** The guess the scan started from is still at the bottom of the stack. */
  predicate IsGuessBased(s: string) {
    s != [] && s[0] == '<' && IsPendingStack(s)
  }

  /** The end found for a stack: a `>` closes a guess, a closing bracket closes a bracket. */
  predicate EndsAs(stack: string, c: char) {
    && (IsClose(c) || c == '>')
    && (IsGuessBased(stack) ==> c == '>')
    && (IsBased(stack) ==> IsClose(c))
  }

  lemma EndStepEnds(line: string, i: nat, stack: string)
    requires i < |line| && IsPendingStack(stack)
    ensures match EndStep(line, i, stack)
            case Pending(s) =>
              IsPendingStack(s) && (IsGuessBased(stack) ==> IsGuessBased(s)) && (IsBased(stack) ==> IsBased(s))
            case Found(q) =>
              q == i + 1 && EndsAs(stack, line[i])
            case Broken => true
  {
    hide DropWhile, IsShift, IsOperatorLess, IsArrowOrOperator;
    DropWhileWithout(stack, '<');
    if IsBased(stack) {
      EndStepBased(line, i, stack);
    }
  }

  lemma {:induction false} ScanEndEnds(line: string, i: nat, stack: string)
    requires IsPendingStack(stack)
    ensures match ScanEnd(line, i, stack)
            case Pending(s) =>
              IsPendingStack(s) && (IsGuessBased(stack) ==> IsGuessBased(s)) && (IsBased(stack) ==> IsBased(s))
            case Found(q) => 1 <= q <= |line| && EndsAs(stack, line[q - 1])
            case Broken => true
    decreases |line| - i
  {
    hide EndStep;
    if i < |line| {
      EndStepEnds(line, i, stack);
      var r := EndStep(line, i, stack);
      if r.Pending? {
        ScanEndEnds(line, i + 1, r.stack);
      }
    }
  }

  lemma {:induction false} CloseFromEnds(lines: seq<string>, l: nat, i: nat, stack: string)
    requires l < |lines| && IsPendingStack(stack)
    ensures var r := CloseFrom(lines, l, i, stack);
            r.At? ==> && r.line < |lines| && 1 <= r.pos <= |lines[r.line]|
                      && EndsAs(stack, lines[r.line][r.pos - 1])
    decreases |lines| - l
  {
    hide ScanEnd;
    ScanEndEnds(lines[l], i, stack);
    match ScanEnd(lines[l], i, stack)
    case Found(q) =>
    case Broken =>
    case Pending(s) =>
      if s != [] && l + 1 < |lines| {
        CloseFromEnds(lines, l + 1, 0, s);
      }
  }

  /** The brackets between an angle bracket and the end found for it. */
  lemma BalancedInside(w: string, o: nat, e: nat)
    requires o < e - 1 < |w| && IsNeutral(w[o]) && Run(w[o..e], []) == Some([])
    ensures Balanced(w[o + 1..e])
    ensures IsNeutral(w[e - 1]) ==> Balanced(w[o + 1..e - 1])
    ensures IsClose(w[e - 1]) ==> !Balanced(w[o + 1..e - 1])
  {
    var x := w[o + 1..e - 1];
    assert w[o..e] == [w[o]] + (x + [w[e - 1]]);
    RunConcat([w[o]], x + [w[e - 1]], []);
    assert w[o + 1..e] == x + [w[e - 1]];
    RunConcat(x, [w[e - 1]], []);
    BalancedIffRuns(w[o + 1..e]);
    BalancedIffRuns(x);
  }

  /** The `<` at `i` is taken for the beginning of a template argument list. */
  predicate IsGuess(line: string, i: nat)
    requires i < |line|
  {
    line[i] == '<' && !IsShift(line, i) && !IsOperatorLess(line, i)
  }

  /** The first place from `p` on where something is pushed on an empty stack. */
  function FirstPush(line: string, p: nat): (q: nat)
    requires p <= |line|
    ensures p <= q <= |line|
    ensures q < |line| ==> IsOpen(line[q]) || IsGuess(line, q)
    decreases |line| - p
  {
    if p == |line| || IsOpen(line[p]) || IsGuess(line, p) then p else FirstPush(line, p + 1)
  }

  /** A scan that starts with nothing pending is one that starts with the first thing pushed, or fails. */
  lemma {:induction false} ScanFromFirstPush(line: string, p: nat)
    requires p <= |line|
    ensures var q, r := FirstPush(line, p), ScanEnd(line, p, []);
            r == Broken || r == Pending([]) || (q < |line| && r == ScanEnd(line, q + 1, [line[q]]))
    decreases |line| - p
  {
    hide IsShift, IsOperatorLess, IsArrowOrOperator;
    if p < |line| {
      assert [] + [line[p]] == [line[p]];
      if !IsOpen(line[p]) && !IsGuess(line, p) {
        ScanFromFirstPush(line, p + 1);
      }
    }
  }

  /**
   Success from a `<`: the brackets passed over, end included, form a balanced word. The end
   is a `>`, and then the brackets strictly inside are balanced, or it is a closing bracket,
   and then they are not. Which of the two is decided on the line of the `<` by the first thing
   pushed from there on: itself, unless it is in a shift or an operator name.
   */
  lemma CloseAngle(lines: seq<string>, l: nat, p: nat)
    requires ValidPlace(lines, l, p) && lines[l][p] == '<'
    requires CloseExpressionSpec(lines, l, p).At?
    ensures var r := CloseExpressionSpec(lines, l, p);
            var w, o, e := Flat(lines), Offset(lines, l, p), Offset(lines, r.line, r.pos);
            && o < e - 1 < |w|
            && Balanced(w[o + 1..e])
            && (w[e - 1] == '>' || IsClose(w[e - 1]))
            && (Balanced(w[o + 1..e - 1]) <==> w[e - 1] == '>')
            && (!IsShift(lines[l], p) && !IsOperatorLess(lines[l], p) ==> w[e - 1] == '>')
    ensures FirstPush(lines[l], p) < |lines[l]|
    ensures var r := CloseExpressionSpec(lines, l, p);
            Balanced(Flat(lines)[Offset(lines, l, p) + 1..Offset(lines, r.line, r.pos) - 1])
            <==> lines[l][FirstPush(lines[l], p)] == '<'
  {
    hide Flat, Run, Balanced, ScanEnd, IsOperatorLess, IsShift, FirstPush, CloseFrom;
    var r := CloseExpressionSpec(lines, l, p);
    var w, o, e := Flat(lines), Offset(lines, l, p), Offset(lines, r.line, r.pos);
    WithoutNil('<');
    CloseFromRuns(lines, l, p, []);
    FlatAt(lines, l, p);
    PushDecidesEnd(lines, l, p);
    FlatAt(lines, r.line, r.pos - 1);
    NotItself(lines, l, p);
    BalancedInside(w, o, e);
  }

  /** The first thing pushed decides whether the end is a `>` or a closing bracket. */
  lemma PushDecidesEnd(lines: seq<string>, l: nat, p: nat)
    requires ValidPlace(lines, l, p) && CloseFrom(lines, l, p, []).At?
    ensures var r, q := CloseFrom(lines, l, p, []), FirstPush(lines[l], p);
            && q < |lines[l]| && r.line < |lines| && 1 <= r.pos <= |lines[r.line]|
            && (lines[l][q] == '<' ==> lines[r.line][r.pos - 1] == '>')
            && (lines[l][q] != '<' ==> IsClose(lines[r.line][r.pos - 1]))
            && (IsGuess(lines[l], p) ==> q == p)
  {
    hide ScanEnd, IsOperatorLess, IsShift;
    ScanFromFirstPush(lines[l], p);
    var q := FirstPush(lines[l], p);
    assert q < |lines[l]| && CloseFrom(lines, l, p, []) == CloseFrom(lines, l, q + 1, [lines[l][q]]);
    CloseFromEnds(lines, l, q + 1, [lines[l][q]]);
  }

  /** The end found lies behind the `<` the scan started from. */
  lemma NotItself(lines: seq<string>, l: nat, p: nat)
    requires ValidPlace(lines, l, p) && lines[l][p] == '<'
    requires CloseFrom(lines, l, p, []).At?
    ensures var r := CloseFrom(lines, l, p, []);
            r.line < |lines| && Offset(lines, l, p) + 1 < Offset(lines, r.line, r.pos)
  {
    hide Flat, Run, CloseFrom, Without;
    var r := CloseFrom(lines, l, p, []);
    CloseFromEnds(lines, l, p, []);
    CloseFromRuns(lines, l, p, []);
    WithoutNil('<');
    FlatAt(lines, l, p);
    FlatAt(lines, r.line, r.pos - 1);
  }

  /** From the second `<` of a shift the end found may be a bracket that was never opened. */
  lemma CloseAngleAfterShift()
    ensures CloseExpressionSpec(["<<(a)"], 0, 1) == At(0, 5)
    ensures !Balanced("(a")
  {
    ShiftScan("<<(a)");
    UnclosedGroup("(a");
  }

  lemma ShiftScan(line: string)
    requires line == "<<(a)"
    ensures ScanEnd(line, 1, "") == Found(5)
  {
    hide ScanEnd, EndsWithOperator, IsOperatorLess;
    ScanEndStep(line, 1, "");
    assert "" + "(" == "(";
    ScanEndStep(line, 2, "");
    ScanEndStep(line, 3, "(");
    ScanEndStep(line, 4, "(");
  }

  lemma UnclosedGroup(w: string)
    requires |w| == 2 && IsOpen(w[0]) && IsNeutral(w[1])
    ensures !Balanced(w)
  {
    BalancedIffRuns(w);
    assert w[1..] == [w[1]] && [w[1]][1..] == [];
    assert Run(w, []) == Run([w[1]], [] + [w[0]]);
  }

  lemma ScanEndStep(line: string, i: nat, stack: string)
    requires i < |line|
    ensures var r := EndStep(line, i, stack);
            ScanEnd(line, i, stack) == if r.Pending? then ScanEnd(line, i + 1, r.stack) else r
  {
  }
}
