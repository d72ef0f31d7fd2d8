/**
 Which places the two searches of cpplint find, from a bracket or an angle bracket.

 The signs say, from the text of a line alone, what each search takes an angle bracket for. With
 them `CloseExpressionExactly` and `ReverseCloseExpressionExactly` say exactly where the searches
 end and when they find nothing.
 */
module AngleMatchers {
  import opened Options
  import opened Sequences
  import opened Brackets
  import opened Lines
  import opened Angles
  import opened ForwardMatcher
  import opened BackwardMatcher

  // ----- Signs of a file -----

  type SignOf = (string, int) -> Sign

  function LineSigns(line: string, f: SignOf): (z: seq<Sign>)
    ensures |z| == |line| && forall i :: 0 <= i < |line| ==> z[i] == f(line, i)
  {
    seq(|line|, i requires 0 <= i < |line| => f(line, i))
  }

  function Signs(lines: seq<string>, f: SignOf): (z: seq<Sign>)
    ensures |z| == |Flat(lines)|
  {
    if lines == [] then [] else LineSigns(lines[0], f) + Signs(lines[1..], f)
  }

  lemma {:induction false} SignAt(lines: seq<string>, f: SignOf, l: nat, i: nat)
    requires l < |lines| && i < |lines[l]|
    ensures Offset(lines, l, i) < |Flat(lines)| && Signs(lines, f)[Offset(lines, l, i)] == f(lines[l], i)
    decreases l
  {
    FlatAt(lines, l, i);
    if l == 0 {
      assert lines[..0] == [];
    } else {
      SignAt(lines[1..], f, l - 1, i);
      assert lines[..l][1..] == lines[1..][..l - 1];
    }
  }

  /** A sign function gives signs to neutral characters only. */
  ghost predicate IsSignOf(f: SignOf) {
    forall line, i :: f(line, i) != Plain ==> 0 <= i < |line| && IsNeutral(line[i])
  }

  lemma {:induction false} SignsAreNeutral(lines: seq<string>, f: SignOf)
    requires IsSignOf(f)
    ensures SignsNeutral(Flat(lines), Signs(lines, f))
  {
    if lines != [] {
      SignsAreNeutral(lines[1..], f);
    }
  }

  // ----- The forward search -----

  predicate Follows(line: string, i: int, c: char) {
    1 <= i <= |line| && line[i - 1] == c
  }

  predicate AfterOperator(line: string, i: int) {
    0 <= i <= |line| && EndsWithOperator(line[..i])
  }

  /**
   Forwards: a `<` after a `<` takes a guess back, a `<` after `operator` is nothing, any other is a
   guess; a `>` can end a list unless it follows a `-` or stands one behind `operator`.
   */
  function ForwardSign(line: string, i: int): Sign {
    if !(0 <= i < |line|) then Plain
    else
      match line[i]
      case '<' => if Follows(line, i, '<') then Retract else if AfterOperator(line, i) then Plain else Guess
      case '>' => if Follows(line, i, '-') || AfterOperator(line, i - 1) then Plain else Ender
      case ';' => Stop
      case _ => Plain
  }

  lemma ForwardSignIsSign()
    ensures IsSignOf(ForwardSign)
  {
  }

  function ScanOf(o: Outcome, i: nat): Scan {
    match o
    case Go(t) => Scan.Pending(t)
    case Hit => Found(i + 1)
    case Miss => Broken
  }

  lemma NoOperatorAtStart(line: string)
    ensures !EndsWithOperator(line[..0])
  {
  }

  lemma EndStepIsFlat(line: string, i: nat, s: string)
    requires i < |line|
    ensures EndStep(line, i, s) == ScanOf(FlatStep(line[i], ForwardSign(line, i), s), i)
  {
    hide EndsWithOperator, DropWhile;
    NoOperatorAtStart(line);
  }

  lemma FlatStepKeepsStack(c: char, sign: Sign, s: string)
    requires s != []
    ensures var r := FlatStep(c, sign, s); r.Go? ==> r.stack != []
  {
    hide DropWhile;
  }

  lemma {:induction false} ScanEndIsFlat(lines: seq<string>, l: nat, i: nat, s: string)
    requires l < |lines| && i <= |lines[l]| && s != []
    ensures Offset(lines, l + 1, 0) == Offset(lines, l, 0) + |lines[l]| <= |Flat(lines)|
    ensures var w, z := Flat(lines), Signs(lines, ForwardSign);
            match ScanEnd(lines[l], i, s)
            case Found(q) => i < q <= |lines[l]| && FlatScan(w, z, Offset(lines, l, i), s) == Some(Offset(lines, l, q) - 1)
            case Broken => FlatScan(w, z, Offset(lines, l, i), s) == None
            case Pending(t) => t != [] && FlatScan(w, z, Offset(lines, l, i), s) == FlatScan(w, z, Offset(lines, l + 1, 0), t)
    decreases |lines[l]| - i
  {
    hide Flat, Signs, FlatStep, EndStep, ForwardSign;
    OffsetNextLine(lines, l);
    OffsetBound(lines, l, |lines[l]|);
    if i < |lines[l]| {
      FlatAt(lines, l, i);
      SignAt(lines, ForwardSign, l, i);
      EndStepIsFlat(lines[l], i, s);
      FlatStepKeepsStack(lines[l][i], ForwardSign(lines[l], i), s);
      var r := EndStep(lines[l], i, s);
      if r.Pending? {
        ScanEndIsFlat(lines, l, i + 1, r.stack);
      }
    }
  }

  /** The place found is the one the flat scan hits, and none if it hits none. */
  ghost predicate IsPast(lines: seq<string>, r: Place, e: Option<nat>) {
    match r
    case Nowhere => e == None
    case At(l, q) => l < |lines| && 1 <= q <= |lines[l]| && e == Some(Offset(lines, l, q) - 1)
  }

  lemma {:induction false} CloseFromIsFlat(lines: seq<string>, l: nat, i: nat, s: string)
    requires l < |lines| && i <= |lines[l]| && s != []
    ensures IsPast(lines, CloseFrom(lines, l, i, s),
                   FlatScan(Flat(lines), Signs(lines, ForwardSign), Offset(lines, l, i), s))
    decreases |lines| - l
  {
    hide Flat, Signs, ScanEnd, FlatScan;
    ScanEndIsFlat(lines, l, i, s);
    match ScanEnd(lines[l], i, s)
    case Found(q) =>
    case Broken =>
    case Pending(t) =>
      if l + 1 < |lines| {
        CloseFromIsFlat(lines, l + 1, 0, t);
      } else {
        FlatEnds(lines);
        FlatScanEnds(Flat(lines), Signs(lines, ForwardSign), t);
      }
  }

  lemma FlatEnds(lines: seq<string>)
    ensures Offset(lines, |lines|, 0) == |Flat(lines)|
  {
    assert lines[..|lines|] == lines;
  }

  lemma FlatScanEnds(w: string, z: seq<Sign>, s: string)
    requires |w| == |z|
    ensures FlatScan(w, z, |w|, s) == None
  {
  }

  /** The search from `p` begins with what is pushed at `q`, before anything that makes it give up. */
  predicate Begins(line: string, p: nat, q: nat) {
    && p <= q < |line| && (IsOpen(line[q]) || ForwardSign(line, q) == Guess)
    && forall k :: p <= k < q ==>
         IsNeutral(line[k]) && ForwardSign(line, k) != Guess && ForwardSign(line, k) != Stop
  }

  lemma {:induction false} ScanBegins(line: string, p: nat)
    requires p <= |line|
    ensures forall q: nat :: Begins(line, p, q) ==> ScanEnd(line, p, []) == ScanEnd(line, q + 1, [line[q]])
    ensures (forall q: nat :: !Begins(line, p, q)) ==> ScanEnd(line, p, []) == Broken || ScanEnd(line, p, []) == Scan.Pending([])
    decreases |line| - p
  {
    hide ForwardSign, EndStep, Begins;
    var m := p + 1;
    BeginsCases(line, p, m);
    if p < |line| {
      EmptyStep(line, p);
      ScanEndStep(line, p, []);
      if IsNeutral(line[p]) && ForwardSign(line, p) != Guess && ForwardSign(line, p) != Stop {
        ScanBegins(line, m);
        if q: nat :| Begins(line, m, q) {
          assert Begins(line, p, q);
        } else {
          assert ScanEnd(line, p, []) == Broken || ScanEnd(line, p, []) == Scan.Pending([]);
        }
      }
    }
  }

  lemma BeginsCases(line: string, p: nat, m: nat)
    requires p <= |line| && m == p + 1
    ensures p == |line| ==> forall q: nat :: !Begins(line, p, q)
    ensures p < |line| && (IsOpen(line[p]) || ForwardSign(line, p) == Guess) ==>
              Begins(line, p, p) && forall q: nat :: Begins(line, p, q) ==> q == p
    ensures p < |line| && !IsOpen(line[p]) && ForwardSign(line, p) != Guess && (IsClose(line[p]) || ForwardSign(line, p) == Stop) ==>
              forall q: nat :: !Begins(line, p, q)
    ensures p < |line| && IsNeutral(line[p]) && ForwardSign(line, p) != Guess && ForwardSign(line, p) != Stop ==>
              forall q: nat :: Begins(line, p, q) <==> Begins(line, m, q)
  {
    hide ForwardSign;
  }

  lemma EmptyStep(line: string, i: nat)
    requires i < |line|
    ensures EndStep(line, i, []) ==
            if IsOpen(line[i]) || ForwardSign(line, i) == Guess then Scan.Pending([line[i]])
            else if IsClose(line[i]) || ForwardSign(line, i) == Stop then Broken
            else Scan.Pending([])
  {
    hide EndsWithOperator;
    EndStepIsFlat(line, i, []);
    assert [] + [line[i]] == [line[i]];
  }

  /** A bracket or a `<`, and neither `<<` nor `<=`. */
  predicate MayBegin(line: string, p: nat)
    requires p < |line|
  {
    line[p] in "([{<" && !("<<" <= line[p..]) && !("<=" <= line[p..])
  }

  lemma MayBeginIff(line: string, p: nat)
    requires p < |line|
    ensures MayBegin(line, p) <==> !StartsNothing(line, p)
  {
    var s := line[p..];
    assert s[0] == line[p];
    if |s| >= 2 {
      assert s[1] == line[p + 1];
    }
  }

  /** The expression that begins at line `l`, column `p`, ends with the character at offset `e`. */
  ghost predicate ExpressionEnds(lines: seq<string>, l: nat, p: nat, e: nat)
    requires ValidPlace(lines, l, p)
  {
    MayBegin(lines[l], p) && exists q :: Begins(lines[l], p, q) && BegunEnds(lines, l, q, e)
  }

  ghost predicate BegunEnds(lines: seq<string>, l: nat, q: nat, e: nat)
    requires l < |lines| && q < |lines[l]|
  {
    if IsOpen(lines[l][q]) then MatchAt(Flat(lines), Offset(lines, l, q), e)
    else EndsAt(Flat(lines), Signs(lines, ForwardSign), Offset(lines, l, q), e)
  }

  lemma BegunIsFound(lines: seq<string>, l: nat, p: nat, q: nat, e: nat)
    requires ValidPlace(lines, l, p) && Begins(lines[l], p, q)
    ensures var r := CloseFrom(lines, l, p, []);
            BegunEnds(lines, l, q, e) <==> r.At? && r.line < |lines| && Offset(lines, r.line, r.pos) == e + 1
  {
    hide Flat, Signs, ScanEnd, FlatScan, EndsAt, MatchAt, Close, ForwardSign;
    ScanBegins(lines[l], p);
    var c, o := lines[l][q], Offset(lines, l, q);
    assert CloseFrom(lines, l, p, []) == CloseFrom(lines, l, q + 1, [c]);
    FlatAt(lines, l, q);
    if IsOpen(c) {
      CloseFromCloses(lines, l, q + 1, [c]);
      WithoutBase([c], '<');
      MatchIffCloses(Flat(lines), o);
    } else {
      GuessIsAngle(lines[l], q);
      CloseFromIsFlat(lines, l, q + 1, [c]);
      SignAt(lines, ForwardSign, l, q);
      ForwardSignIsSign();
      SignsAreNeutral(lines, ForwardSign);
      ScanFindsEnd(Flat(lines), Signs(lines, ForwardSign), o, e);
    }
  }

  lemma GuessIsAngle(line: string, i: nat)
    requires ForwardSign(line, i) == Guess
    ensures i < |line| && line[i] == '<'
  {
  }

  /**
   `CloseExpression` from any place, exactly: from a bracket or a `<` the end of the expression that
   begins with the first thing pushed, the partner of a bracket or the end of the list of a `<`; and
   nothing when there is no such end, or nothing is pushed on that line, or the place is none of these
   or the beginning of `<<` or `<=`.
   */
  lemma CloseExpressionExactly(lines: seq<string>, l: nat, p: nat, e: nat)
    requires ValidPlace(lines, l, p)
    ensures var r := CloseExpressionSpec(lines, l, p);
            ExpressionEnds(lines, l, p, e) <==> r.At? && r.line < |lines| && Offset(lines, r.line, r.pos) == e + 1
  {
    hide CloseFrom, Begins, BegunEnds, MayBegin, StartsNothing;
    MayBeginIff(lines[l], p);
    if q :| Begins(lines[l], p, q) {
      BegunIsFound(lines, l, p, q, e);
      forall q' | Begins(lines[l], p, q')
        ensures q' == q
      {
        BeginsOnce(lines[l], p, q, q');
      }
    } else {
      NothingBegins(lines, l, p);
    }
  }

  lemma BeginsOnce(line: string, p: nat, q: nat, q': nat)
    requires Begins(line, p, q) && Begins(line, p, q')
    ensures q == q'
  {
    hide ForwardSign;
  }

  lemma NothingBegins(lines: seq<string>, l: nat, p: nat)
    requires ValidPlace(lines, l, p) && forall q :: !Begins(lines[l], p, q)
    ensures CloseFrom(lines, l, p, []) == Nowhere
  {
    hide Begins, ScanEnd;
    ScanBegins(lines[l], p);
  }

  /** So the search finds nothing exactly when the expression has no end. */
  lemma CloseExpressionFailsIff(lines: seq<string>, l: nat, p: nat)
    requires ValidPlace(lines, l, p)
    ensures CloseExpressionSpec(lines, l, p) == Nowhere <==> forall e: nat :: !ExpressionEnds(lines, l, p, e)
  {
    hide ExpressionEnds, CloseExpressionSpec;
    var r := CloseExpressionSpec(lines, l, p);
    forall e: nat
      ensures ExpressionEnds(lines, l, p, e) <==> r.At? && r.line < |lines| && Offset(lines, r.line, r.pos) == e + 1
    {
      CloseExpressionExactly(lines, l, p, e);
    }
    if r.At? {
      FoundPlace(lines, l, p);
      assert ExpressionEnds(lines, l, p, Offset(lines, r.line, r.pos) - 1);
    }
  }

  lemma FoundPlace(lines: seq<string>, l: nat, p: nat)
    requires ValidPlace(lines, l, p) && CloseExpressionSpec(lines, l, p).At?
    ensures var r := CloseExpressionSpec(lines, l, p); r.line < |lines| && 1 <= r.pos <= |lines[r.line]|
  {
    CloseFromEnds(lines, l, p, []);
  }

  // ----- The backward search -----

  /** How many `<` stand in a row from `i` on. */
  function LessRun(line: string, i: nat): nat
    decreases |line| - i
  {
    if i < |line| && line[i] == '<' then 1 + LessRun(line, i + 1) else 0
  }

  /**
   Backwards: a `>` is a guess unless it follows a `-`, belongs to a spaced `>=`, or follows
   `operator`; a `<` can be the start of a list if it is the first of an odd number in a row, as
   two of them are a shift.
   */
  function BackwardSign(line: string, i: int): Sign {
    if !(0 <= i < |line|) then Plain
    else
      match line[i]
      case '>' =>
        if Follows(line, i, '-') || (i > 0 && SpacedGreaterEqual(line, i - 1)) || AfterOperator(line, i) then Plain else Guess
      case '<' => if Follows(line, i, '<') || LessRun(line, i) % 2 == 0 then Plain else Ender
      case ';' => Stop
      case _ => Plain
  }

  lemma BackwardSignIsSign()
    ensures IsSignOf(BackwardSign)
  {
    hide LessRun;
  }

  /** Closing brackets turned around, and `>` into `<`. */
  function Turn(c: char): char {
    if c == '>' then '<' else Swap(c)
  }

  function Turned(s: string): (t: string)
    ensures |t| == |s| && forall k :: 0 <= k < |s| ==> t[k] == Turn(s[k])
  {
    seq(|s|, k requires 0 <= k < |s| => Turn(s[k]))
  }

  predicate IsBackStack(s: string) {
    forall k :: 0 <= k < |s| ==> IsClose(s[k]) || s[k] == '>'
  }

  lemma TurnedPush(s: string, c: char)
    ensures Turned(s + [c]) == Turned(s) + [Turn(c)]
  {
  }

  lemma TurnedPop(s: string)
    requires s != []
    ensures Turned(Pop(s)) == Pop(Turned(s)) && Top(Turned(s)) == Turn(Top(s))
  {
  }

  lemma {:induction false} TurnedDrop(s: string)
    requires IsBackStack(s)
    ensures Turned(DropWhile(s, '>')) == DropWhile(Turned(s), '<')
    ensures IsBackStack(DropWhile(s, '>'))
  {
    if s != [] {
      TurnedPop(s);
      if Top(s) == '>' {
        TurnedDrop(Pop(s));
      }
    }
  }

  function BackScanOf(o: Outcome, i: nat, s: string): Scan {
    match o
    case Go(_) => Scan.Pending(s)
    case Hit => Found(i)
    case Miss => Broken
  }

  /** In a row of `<` the search is at an even distance from the right end. */
  predicate IsVisited(line: string, i: int) {
    0 <= i < |line| && line[i] == '<' ==> LessRun(line, i + 1) % 2 == 0
  }

  lemma StartStepIsFlat(line: string, i: nat, s: string)
    requires i < |line| && IsBackStack(s) && IsVisited(line, i)
    ensures var r, f := StartStep(line, i, s), FlatStep(Swap(line[i]), BackwardSign(line, i), Turned(s));
            && (f.Go? <==> r.Pending?) && (f.Hit? <==> r == Found(i)) && (f.Miss? <==> r == Broken)
            && (r.Pending? ==> IsBackStack(r.stack) && f.stack == Turned(r.stack) && (s != [] ==> r.stack != []))
  {
    hide EndsWithOperator, DropWhile, SpacedGreaterEqual;
    NoOperatorAtStart(line);
    TurnedDrop(s);
    DropWhileWithout(s, '>');
    TurnedPush(s, line[i]);
    SwapTwice(line[i]);
    if s != [] {
      TurnedPop(s);
      SwapTwice(Top(s));
    }
    var t := DropWhile(s, '>');
    if t != [] {
      TurnedPop(t);
      SwapTwice(Top(t));
    }
  }

  /** The extra character stepped over means nothing to the search. */
  lemma SkippedIsPlain(line: string, i: nat)
    requires i < |line| && SkipsPrevious(line, i) && IsVisited(line, i)
    ensures i > 0 && IsNeutral(line[i - 1]) && BackwardSign(line, i - 1) == Plain && IsVisited(line, i - 2)
  {
    hide EndsWithOperator;
    SkippedIsNeutral(line, i);
    if line[i] == '>' {
      if EndsWithOperator(line[..i]) {
        EndsWithOperatorTail(line[..i]);
      }
      assert line[i - 1] == '-' || line[i - 1] == 'r' || IsSpace(line[i - 1]);
      assert LessRun(line, i - 1) == 0;
    } else {
      assert LessRun(line, i) == 1 + LessRun(line, i + 1);
      assert LessRun(line, i - 1) == 1 + LessRun(line, i);
    }
  }

  lemma NextIsVisited(line: string, i: nat)
    requires i < |line| && !SkipsPrevious(line, i)
    ensures IsVisited(line, i - 1)
  {
  }

  /** How far a place is from the end of the text. */
  ghost function FromEnd(lines: seq<string>, l: nat, i: nat): int
    requires l <= |lines|
  {
    |Flat(lines)| - Offset(lines, l, i)
  }

  ghost function BackScan(lines: seq<string>, x: nat, s: string): Option<nat> {
    FlatScan(Mirror(Flat(lines)), Reverse(Signs(lines, BackwardSign)), x, Turned(s))
  }

  lemma BackScanStep(lines: seq<string>, l: nat, i: nat, s: string)
    requires l < |lines| && i < |lines[l]|
    ensures FromEnd(lines, l, i + 1) >= 0 && FromEnd(lines, l, i) == FromEnd(lines, l, i + 1) + 1
    ensures var f, x := FlatStep(Swap(lines[l][i]), BackwardSign(lines[l], i), Turned(s)), FromEnd(lines, l, i + 1);
            BackScan(lines, x, s) ==
            match f
            case Go(t) => FlatScan(Mirror(Flat(lines)), Reverse(Signs(lines, BackwardSign)), x + 1, t)
            case Hit => Some(x)
            case Miss => None
  {
    hide Flat, Signs, FlatStep, BackwardSign, Turned;
    FlatAt(lines, l, i);
    SignAt(lines, BackwardSign, l, i);
    var w, z, x := Flat(lines), Signs(lines, BackwardSign), FromEnd(lines, l, i + 1);
    assert Mirror(w)[x] == Swap(w[|w| - 1 - x]) && Reverse(z)[x] == z[|z| - 1 - x];
  }

  lemma PlainStep(c: char, s: string)
    requires IsNeutral(c)
    ensures FlatStep(c, Plain, s) == Go(s)
  {
  }

  lemma {:induction false} ScanStartIsFlat(lines: seq<string>, l: nat, i: int, s: string)
    requires l < |lines| && -1 <= i < |lines[l]| && IsBackStack(s) && s != [] && IsVisited(lines[l], i)
    ensures FromEnd(lines, l, i + 1) >= 0 && FromEnd(lines, l, 0) >= 0
    ensures match ScanStart(lines[l], i, s)
            case Found(q) => q <= i && BackScan(lines, FromEnd(lines, l, i + 1), s) == Some(FromEnd(lines, l, q + 1))
            case Broken => BackScan(lines, FromEnd(lines, l, i + 1), s) == None
            case Pending(t) =>
              && IsBackStack(t) && t != []
              && BackScan(lines, FromEnd(lines, l, i + 1), s) == BackScan(lines, FromEnd(lines, l, 0), t)
    decreases i + 1
  {
    hide Flat, Signs, FlatStep, StartStep, BackwardSign, SkipsPrevious, IsBackStack, IsVisited, FlatScan;
    OffsetBound(lines, l, i + 1);
    OffsetBound(lines, l, 0);
    if i >= 0 {
      var line := lines[l];
      StartStepIsFlat(line, i, s);
      BackScanStep(lines, l, i, s);
      var r := StartStep(line, i, s);
      if r.Pending? {
        if SkipsPrevious(line, i) {
          SkippedIsPlain(line, i);
          BackScanStep(lines, l, i - 1, r.stack);
          PlainStep(Swap(line[i - 1]), Turned(r.stack));
          ScanStartIsFlat(lines, l, i - 2, r.stack);
        } else {
          NextIsVisited(line, i);
          ScanStartIsFlat(lines, l, i - 1, r.stack);
        }
      }
    }
  }

  /** The place found is the one the flat scan of the mirrored text hits. */
  ghost predicate IsPlace(lines: seq<string>, r: Place, e: Option<nat>) {
    match r
    case Nowhere => e == None
    case At(l, q) => l < |lines| && q < |lines[l]| && FromEnd(lines, l, q + 1) >= 0 && e == Some(FromEnd(lines, l, q + 1))
  }

  lemma LastIsVisited(line: string)
    ensures IsVisited(line, |line| - 1)
  {
  }

  lemma {:induction false} OpenFromIsFlat(lines: seq<string>, l: nat, i: int, s: string)
    requires l < |lines| && -1 <= i < |lines[l]| && IsBackStack(s) && s != [] && IsVisited(lines[l], i)
    ensures FromEnd(lines, l, i + 1) >= 0
    ensures IsPlace(lines, OpenFrom(lines, l, i, s), BackScan(lines, FromEnd(lines, l, i + 1), s))
    decreases l
  {
    hide Flat, Signs, ScanStart, FlatScan, IsBackStack, IsVisited, BackScan;
    ScanStartIsFlat(lines, l, i, s);
    match ScanStart(lines[l], i, s)
    case Found(q) =>
      OffsetBound(lines, l, q + 1);
    case Broken =>
    case Pending(t) =>
      if l > 0 {
        OffsetNextLine(lines, l - 1);
        LastIsVisited(lines[l - 1]);
        OpenFromIsFlat(lines, l - 1, |lines[l - 1]| - 1, t);
      } else {
        FlatNil();
        assert lines[..0] == [];
        NothingLeft(lines, t);
      }
  }

  lemma NothingLeft(lines: seq<string>, s: string)
    ensures BackScan(lines, |Flat(lines)|, s) == None
  {
    FlatScanEnds(Mirror(Flat(lines)), Reverse(Signs(lines, BackwardSign)), Turned(s));
  }

  /** The search back from `p` begins with what is pushed at `q`. */
  predicate BeginsBack(line: string, p: nat, q: nat) {
    && q <= p < |line| && (IsClose(line[q]) || BackwardSign(line, q) == Guess)
    && forall k :: q < k <= p ==>
         IsNeutral(line[k]) && BackwardSign(line, k) != Guess && BackwardSign(line, k) != Stop
  }

  lemma EmptyBackStep(line: string, i: nat)
    requires i < |line| && IsVisited(line, i)
    ensures StartStep(line, i, []) ==
            if IsClose(line[i]) || BackwardSign(line, i) == Guess then Scan.Pending([line[i]])
            else if IsOpen(line[i]) || BackwardSign(line, i) == Stop then Broken
            else Scan.Pending([])
  {
    hide EndsWithOperator, SpacedGreaterEqual;
    NoOperatorAtStart(line);
    assert [] + [line[i]] == [line[i]];
  }

  lemma PushedIsNotSkipping(line: string, i: nat)
    requires i < |line| && (IsClose(line[i]) || BackwardSign(line, i) == Guess)
    ensures !SkipsPrevious(line, i)
  {
    hide EndsWithOperator, SpacedGreaterEqual;
  }

  lemma BeginsBackStep(line: string, p: nat, m: nat)
    requires m < p < |line| && forall k :: m < k <= p ==> IsNeutral(line[k]) && BackwardSign(line, k) != Guess && BackwardSign(line, k) != Stop
    ensures forall q: nat :: BeginsBack(line, p, q) <==> BeginsBack(line, m, q)
  {
    hide BackwardSign;
  }

  lemma {:induction false} ScanBeginsBack(line: string, p: nat)
    requires p < |line| && IsVisited(line, p)
    ensures forall q: nat :: BeginsBack(line, p, q) ==>
              ScanStart(line, p, []) == ScanStart(line, q - 1, [line[q]]) && IsVisited(line, q - 1)
    ensures (forall q: nat :: !BeginsBack(line, p, q)) ==>
              ScanStart(line, p, []) == Broken || ScanStart(line, p, []) == Scan.Pending([])
    decreases p
  {
    hide BackwardSign, StartStep, SkipsPrevious, IsVisited;
    EmptyBackStep(line, p);
    if IsClose(line[p]) || BackwardSign(line, p) == Guess {
      assert BeginsBack(line, p, p);
      PushedIsNotSkipping(line, p);
      NextIsVisited(line, p);
    } else if IsNeutral(line[p]) && BackwardSign(line, p) != Stop {
      if SkipsPrevious(line, p) {
        SkippedIsPlain(line, p);
        if p >= 2 {
          BeginsBackStep(line, p, p - 2);
          ScanBeginsBack(line, p - 2);
        }
      } else {
        NextIsVisited(line, p);
        if p >= 1 {
          BeginsBackStep(line, p, p - 1);
          ScanBeginsBack(line, p - 1);
        }
      }
    }
  }

  /** The expression that ends at line `l`, column `p`, starts with the character at offset `e`. */
  ghost predicate ExpressionStarts(lines: seq<string>, l: nat, p: nat, e: nat)
    requires ValidPlace(lines, l, p)
  {
    lines[l][p] in ")]}>" && exists q :: BeginsBack(lines[l], p, q) && BegunStarts(lines, l, q, e)
  }

  ghost predicate BegunStarts(lines: seq<string>, l: nat, q: nat, e: nat)
    requires l < |lines| && q < |lines[l]|
  {
    if IsClose(lines[l][q]) then MatchAt(Flat(lines), e, Offset(lines, l, q))
    else
      && Offset(lines, l, q) < |Flat(lines)|
      && StartsAt(Flat(lines), Signs(lines, BackwardSign), Offset(lines, l, q), e)
  }

  lemma GuessIsGreater(line: string, i: nat)
    requires BackwardSign(line, i) == Guess
    ensures i < |line| && line[i] == '>'
  {
  }

  lemma BegunBackIsFound(lines: seq<string>, l: nat, p: nat, q: nat, e: nat)
    requires ValidPlace(lines, l, p) && BeginsBack(lines[l], p, q) && IsVisited(lines[l], p)
    ensures var r := OpenFrom(lines, l, p, []);
            BegunStarts(lines, l, q, e) <==> r.At? && r.line < |lines| && Offset(lines, r.line, r.pos) == e
  {
    hide Flat, Signs, ScanStart, FlatScan, StartsAt, MatchAt, Close, BackwardSign, IsVisited, Faced;
    ScanBeginsBack(lines[l], p);
    var c, o := lines[l][q], Offset(lines, l, q);
    assert OpenFrom(lines, l, p, []) == OpenFrom(lines, l, q - 1, [c]);
    FlatAt(lines, l, q);
    if IsClose(c) {
      OpenFromCloses(lines, l, q - 1, [c]);
      FacedBase([c]);
      MatchIffOpens(Flat(lines), o);
    } else {
      GuessIsGreater(lines[l], q);
      OpenFromIsFlat(lines, l, q - 1, [c]);
      SignAt(lines, BackwardSign, l, q);
      if e < |Flat(lines)| {
        ScanFindsStart(lines, o, e);
      } else {
        StartsInside(Flat(lines), Signs(lines, BackwardSign), o, e);
      }
    }
  }

  lemma StartsInside(w: string, z: seq<Sign>, o: nat, e: nat)
    requires o < |w| == |z|
    ensures StartsAt(w, z, o, e) ==> e < |w|
  {
  }

  lemma {:induction false} FlatScanRange(w: string, z: seq<Sign>, j: nat, s: string)
    requires |w| == |z|
    ensures var r := FlatScan(w, z, j, s); r.Some? ==> j <= r.value < |w|
    decreases |w| - j
  {
    hide FlatStep;
    if j < |w| {
      match FlatStep(w[j], z[j], s)
      case Go(t) => FlatScanRange(w, z, j + 1, t);
      case Hit =>
      case Miss =>
    }
  }

  lemma MirrorScanFindsStart(w: string, z: seq<Sign>, o: nat, e: nat)
    requires o < |w| == |z| && z[o] == Guess && SignsNeutral(w, z) && e < |w|
    ensures StartsAt(w, z, o, e) <==> FlatScan(Mirror(w), Reverse(z), |w| - o, ['<']) == Some(|w| - 1 - e)
  {
    hide FlatScan, EndsAt, SignsNeutral, Mirror, Reverse;
    MirrorSigns(w, z);
    assert Reverse(z)[|w| - 1 - o] == z[o];
    FlatScanRange(Mirror(w), Reverse(z), |w| - o, ['<']);
    if e <= o {
      ScanFindsEnd(Mirror(w), Reverse(z), |w| - 1 - o, |w| - 1 - e);
      hide StartsAt;
      StartsIffMirrorEnds(w, z, o, e);
    }
  }

  /** The scan of the mirrored text from a pushed `>` finds the start of its list. */
  lemma ScanFindsStart(lines: seq<string>, o: nat, e: nat)
    requires o < |Flat(lines)| && Signs(lines, BackwardSign)[o] == Guess && e < |Flat(lines)|
    ensures StartsAt(Flat(lines), Signs(lines, BackwardSign), o, e) <==>
            BackScan(lines, |Flat(lines)| - o, ['>']) == Some(|Flat(lines)| - 1 - e)
  {
    hide Flat, Signs, FlatScan, StartsAt, BackwardSign, SignsNeutral;
    BackwardSignIsSign();
    SignsAreNeutral(lines, BackwardSign);
    assert Turned(['>']) == ['<'];
    MirrorScanFindsStart(Flat(lines), Signs(lines, BackwardSign), o, e);
  }

  /**
   `ReverseCloseExpression` from any place, exactly: from a closing bracket or a `>` the start of the
   expression that ends with the first thing pushed, the partner of a bracket or the start of the list
   of a `>`; and nothing when there is no such start.
   */
  lemma ReverseCloseExpressionExactly(lines: seq<string>, l: nat, p: nat, e: nat)
    requires ValidPlace(lines, l, p)
    ensures var r := ReverseCloseExpressionSpec(lines, l, p);
            ExpressionStarts(lines, l, p, e) <==> r.At? && r.line < |lines| && Offset(lines, r.line, r.pos) == e
  {
    hide OpenFrom, BeginsBack, BegunStarts;
    if lines[l][p] !in ")]}>" {
      return;
    }
    assert IsVisited(lines[l], p);
    hide IsVisited;
    if q :| BeginsBack(lines[l], p, q) {
      BegunBackIsFound(lines, l, p, q, e);
      forall q' | BeginsBack(lines[l], p, q')
        ensures q' == q
      {
        BeginsBackOnce(lines[l], p, q, q');
      }
    } else {
      NothingBeginsBack(lines, l, p);
    }
  }

  lemma BeginsBackOnce(line: string, p: nat, q: nat, q': nat)
    requires BeginsBack(line, p, q) && BeginsBack(line, p, q')
    ensures q == q'
  {
    hide BackwardSign;
  }

  lemma NothingBeginsBack(lines: seq<string>, l: nat, p: nat)
    requires ValidPlace(lines, l, p) && IsVisited(lines[l], p) && forall q: nat :: !BeginsBack(lines[l], p, q)
    ensures OpenFrom(lines, l, p, []) == Nowhere
  {
    hide BeginsBack, ScanStart, IsVisited;
    ScanBeginsBack(lines[l], p);
  }

  lemma ReverseCloseExpressionFailsIff(lines: seq<string>, l: nat, p: nat)
    requires ValidPlace(lines, l, p)
    ensures ReverseCloseExpressionSpec(lines, l, p) == Nowhere <==> forall e: nat :: !ExpressionStarts(lines, l, p, e)
  {
    hide ExpressionStarts;
    var r := ReverseCloseExpressionSpec(lines, l, p);
    forall e: nat
      ensures ExpressionStarts(lines, l, p, e) <==> r.At? && r.line < |lines| && Offset(lines, r.line, r.pos) == e
    {
      ReverseCloseExpressionExactly(lines, l, p, e);
    }
    if r.At? {
      assert ExpressionStarts(lines, l, p, Offset(lines, r.line, r.pos));
    }
  }

  // ----- There and back on angle brackets -----

  /** What the forward search finds for a `<` that is a guess. */
  lemma GuessEnds(lines: seq<string>, l: nat, p: nat)
    requires ValidPlace(lines, l, p) && MayBegin(lines[l], p) && ForwardSign(lines[l], p) == Guess
    requires CloseExpressionSpec(lines, l, p).At?
    ensures var r := CloseExpressionSpec(lines, l, p);
            && r.line < |lines| && 1 <= r.pos <= |lines[r.line]| && lines[r.line][r.pos - 1] == '>'
            && EndsAt(Flat(lines), Signs(lines, ForwardSign), Offset(lines, l, p), Offset(lines, r.line, r.pos - 1))
  {
    hide ForwardSign, Flat, Signs, EndsAt;
    var r := CloseExpressionSpec(lines, l, p);
    FoundPlace(lines, l, p);
    assert Begins(lines[l], p, p);
    GuessIsAngle(lines[l], p);
    MayBeginIff(lines[l], p);
    BegunIsFound(lines, l, p, p, Offset(lines, r.line, r.pos - 1));
    SignAt(lines, ForwardSign, r.line, r.pos - 1);
    EnderIsGreater(lines, l, p, r.line, r.pos - 1);
  }

  lemma EnderIsGreater(lines: seq<string>, l: nat, p: nat, n: nat, q: nat)
    requires l < |lines| && n < |lines| && q < |lines[n]| && Offset(lines, n, q) < |Flat(lines)|
    requires Signs(lines, ForwardSign)[Offset(lines, n, q)] == ForwardSign(lines[n], q)
    requires EndsAt(Flat(lines), Signs(lines, ForwardSign), Offset(lines, l, p), Offset(lines, n, q))
    ensures lines[n][q] == '>'
  {
    hide Flat, Signs;
  }

  /**
   From a `<` that is a guess to the end of its list and back: the search returns to it exactly when
   it is the start of the expression that ends there, read backwards.
   */
  lemma AngleRoundTripIff(lines: seq<string>, l: nat, p: nat)
    requires ValidPlace(lines, l, p) && MayBegin(lines[l], p) && ForwardSign(lines[l], p) == Guess
    requires CloseExpressionSpec(lines, l, p).At?
    ensures var r := CloseExpressionSpec(lines, l, p);
            && r.pos > 0 && ValidPlace(lines, r.line, r.pos - 1) && lines[r.line][r.pos - 1] == '>'
            && (ReverseCloseExpressionSpec(lines, r.line, r.pos - 1) == At(l, p)
                <==> ExpressionStarts(lines, r.line, r.pos - 1, Offset(lines, l, p)))
  {
    hide ForwardSign, Flat, Signs, EndsAt, ExpressionStarts, CloseExpressionSpec;
    GuessEnds(lines, l, p);
    var r := CloseExpressionSpec(lines, l, p);
    ReverseCloseExpressionExactly(lines, r.line, r.pos - 1, Offset(lines, l, p));
    var b := ReverseCloseExpressionSpec(lines, r.line, r.pos - 1);
    if b.At? {
      BackPlace(lines, r.line, r.pos - 1);
      if Offset(lines, b.line, b.pos) == Offset(lines, l, p) {
        OffsetInjective(lines, b.line, b.pos, l, p);
      }
    }
  }

  lemma BackPlace(lines: seq<string>, l: nat, p: nat)
    requires ValidPlace(lines, l, p) && ReverseCloseExpressionSpec(lines, l, p).At?
    ensures var r := ReverseCloseExpressionSpec(lines, l, p); r.line < |lines| && r.pos < |lines[r.line]|
  {
    OpenFromRange(lines, l, p, []);
  }

  lemma {:induction false} OpenFromRange(lines: seq<string>, l: nat, i: int, s: string)
    requires l < |lines| && -1 <= i < |lines[l]|
    ensures var r := OpenFrom(lines, l, i, s); r.At? ==> r.line < |lines| && r.pos < |lines[r.line]|
    decreases l
  {
    hide ScanStart;
    ScanStartRange(lines[l], i, s);
    match ScanStart(lines[l], i, s)
    case Found(q) =>
    case Broken =>
    case Pending(t) =>
      if t != [] && l > 0 {
        OpenFromRange(lines, l - 1, |lines[l - 1]| - 1, t);
      }
  }

  lemma {:induction false} ScanStartRange(line: string, i: int, s: string)
    requires -1 <= i < |line|
    ensures var r := ScanStart(line, i, s); r.Found? ==> r.pos <= i
    decreases i + 1
  {
    hide SkipsPrevious;
    if i >= 0 {
      var r := StartStep(line, i, s);
      if r.Pending? {
        if SkipsPrevious(line, i) {
          SkippedIsNeutral(line, i);
          ScanStartRange(line, i - 2, r.stack);
        } else {
          ScanStartRange(line, i - 1, r.stack);
        }
      }
    }
  }

  /** Outside of bracket groups, the two searches take the angle brackets between for the same things. */
  ghost predicate ReadingsAgree(lines: seq<string>, o: nat, e: nat)
    requires e < |Flat(lines)|
  {
    Agree(Flat(lines), Signs(lines, ForwardSign), Signs(lines, BackwardSign), o, e)
  }

  /** Then the search from the end of the list returns to its beginning. */
  lemma AngleForwardThenBackward(lines: seq<string>, l: nat, p: nat)
    requires ValidPlace(lines, l, p) && MayBegin(lines[l], p) && ForwardSign(lines[l], p) == Guess
    requires CloseExpressionSpec(lines, l, p).At?
    requires var r := CloseExpressionSpec(lines, l, p);
             r.line < |lines| && r.pos > 0 && Offset(lines, r.line, r.pos - 1) < |Flat(lines)| &&
             ReadingsAgree(lines, Offset(lines, l, p), Offset(lines, r.line, r.pos - 1))
    ensures var r := CloseExpressionSpec(lines, l, p);
            ValidPlace(lines, r.line, r.pos - 1) && ReverseCloseExpressionSpec(lines, r.line, r.pos - 1) == At(l, p)
  {
    hide ForwardSign, BackwardSign, Flat, Signs, EndsAt, StartsAt, CloseExpressionSpec, Agree, SignsNeutral, IsSignOf;
    GuessEnds(lines, l, p);
    AngleRoundTripIff(lines, l, p);
    var r := CloseExpressionSpec(lines, l, p);
    var w, o, e := Flat(lines), Offset(lines, l, p), Offset(lines, r.line, r.pos - 1);
    SignAt(lines, ForwardSign, l, p);
    SignAt(lines, BackwardSign, r.line, r.pos - 1);
    ForwardSignIsSign();
    BackwardSignIsSign();
    SignsAreNeutral(lines, ForwardSign);
    SignsAreNeutral(lines, BackwardSign);
    EndsThenStarts(w, Signs(lines, ForwardSign), Signs(lines, BackwardSign), o, e);
    assert BeginsBack(lines[r.line], r.pos - 1, r.pos - 1);
    assert BegunStarts(lines, r.line, r.pos - 1, o);
  }

  /** What the backward search finds for a `>` that is a guess. */
  lemma GuessStarts(lines: seq<string>, l: nat, p: nat)
    requires ValidPlace(lines, l, p) && BackwardSign(lines[l], p) == Guess
    requires ReverseCloseExpressionSpec(lines, l, p).At?
    ensures var r := ReverseCloseExpressionSpec(lines, l, p);
            && ValidPlace(lines, r.line, r.pos) && Offset(lines, l, p) < |Flat(lines)|
            && StartsAt(Flat(lines), Signs(lines, BackwardSign), Offset(lines, l, p), Offset(lines, r.line, r.pos))
  {
    hide BackwardSign, Flat, Signs, StartsAt;
    var r := ReverseCloseExpressionSpec(lines, l, p);
    BackPlace(lines, l, p);
    FlatAt(lines, l, p);
    GuessIsGreater(lines[l], p);
    assert BeginsBack(lines[l], p, p) && IsVisited(lines[l], p);
    BegunBackIsFound(lines, l, p, p, Offset(lines, r.line, r.pos));
  }

  ghost predicate ReadingsAgreeBack(lines: seq<string>, o: nat, e: nat)
    requires o < |Flat(lines)|
  {
    AgreeBack(Flat(lines), Signs(lines, ForwardSign), Signs(lines, BackwardSign), o, e)
  }

  /** The other way round, unless the start found is followed by `=` or `<`, from where the forward search does not start. */
  lemma AngleBackwardThenForward(lines: seq<string>, l: nat, p: nat)
    requires ValidPlace(lines, l, p) && BackwardSign(lines[l], p) == Guess
    requires ReverseCloseExpressionSpec(lines, l, p).At? && Offset(lines, l, p) < |Flat(lines)|
    requires var r := ReverseCloseExpressionSpec(lines, l, p);
             ValidPlace(lines, r.line, r.pos) && !IsLessOperator(lines[r.line], r.pos) &&
             ReadingsAgreeBack(lines, Offset(lines, l, p), Offset(lines, r.line, r.pos))
    ensures var r := ReverseCloseExpressionSpec(lines, l, p); CloseExpressionSpec(lines, r.line, r.pos) == At(l, p + 1)
  {
    hide ForwardSign, BackwardSign, Flat, Signs, EndsAt, StartsAt, AgreeBack, SignsNeutral, IsSignOf, IsLessOperator, CloseFrom;
    GuessStarts(lines, l, p);
    var r := ReverseCloseExpressionSpec(lines, l, p);
    var w, o, e := Flat(lines), Offset(lines, l, p), Offset(lines, r.line, r.pos);
    SignAt(lines, BackwardSign, l, p);
    SignAt(lines, ForwardSign, r.line, r.pos);
    ForwardSignIsSign();
    BackwardSignIsSign();
    SignsAreNeutral(lines, ForwardSign);
    SignsAreNeutral(lines, BackwardSign);
    StartsThenEnds(w, Signs(lines, ForwardSign), Signs(lines, BackwardSign), o, e);
    GuessIsAngle(lines[r.line], r.pos);
    assert Begins(lines[r.line], r.pos, r.pos);
    assert BegunEnds(lines, r.line, r.pos, o);
    MayBeginIff(lines[r.line], r.pos);
    CloseExpressionExactly(lines, r.line, r.pos, o);
    FoundPlace(lines, r.line, r.pos);
    var c := CloseExpressionSpec(lines, r.line, r.pos);
    OffsetInjective(lines, c.line, c.pos - 1, l, p);
  }

  /** A comparison between: forwards the `>` of ` >= ` ends the list, backwards it is nothing, so there is no way back. */
  lemma ComparisonHasNoWayBack()
    ensures CloseExpressionSpec(["<a >= b>"], 0, 0) == At(0, 4)
    ensures ReverseCloseExpressionSpec(["<a >= b>"], 0, 3) == Nowhere
  {
    ComparisonForward("<a >= b>");
    ComparisonBackward("<a >= b>");
  }

  lemma ComparisonForward(line: string)
    requires line == "<a >= b>"
    ensures ScanEnd(line, 0, "") == Found(4)
  {
    hide ScanEnd;
    ScanEndStep(line, 0, "");
    assert "" + "<" == "<" && line[..0] == "";
    NoOperatorAtStart(line);
    ScanEndStep(line, 1, "<");
    ScanEndStep(line, 2, "<");
    TooShort(line[..2]);
    ScanEndStep(line, 3, "<");
  }

  lemma TooShort(s: string)
    requires |s| < 8
    ensures !EndsWithOperator(s)
  {
  }

  lemma ComparisonBackward(line: string)
    requires line == "<a >= b>"
    ensures ScanStart(line, 3, "") == Scan.Pending("")
  {
    hide ScanStart;
    assert SpacedGreaterEqual(line, 2);
    ScanStartStep(line, 3, "");
    ScanStartStep(line, 1, "");
    ScanStartStep(line, 0, "");
    ScanStartStep(line, -1, "");
  }

  lemma ScanStartStep(line: string, i: int, s: string)
    requires -1 <= i < |line|
    ensures i < 0 ==> ScanStart(line, i, s) == Scan.Pending(s)
    ensures i >= 0 ==>
              var r := StartStep(line, i, s);
              ScanStart(line, i, s) ==
              if r.Pending? then ScanStart(line, if SkipsPrevious(line, i) then i - 2 else i - 1, r.stack) else r
  {
  }
}
