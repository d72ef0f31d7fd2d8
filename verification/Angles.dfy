/**
 Angle brackets, independently of any scanner.

 A `<` or `>` may be an operator. A sign says, for each place of a text, whether it is taken for the
 beginning of a template argument list, takes such a guess back, can end a list, or ends a statement.
 `EndsAt` says which place ends the list begun at a place: brackets in between are skipped as whole
 groups, and outside of them guesses are counted until none is pending.
 */
module Angles {
  import opened Options
  import opened Sequences
  import opened Brackets
  import opened Lines

  datatype Sign = Guess | Retract | Ender | Stop | Plain

  /** How the number of pending guesses changes. */
  function Weight(s: Sign): int {
    match s
    case Guess => 1
    case Retract => -1
    case Ender => -1
    case Stop => 0
    case Plain => 0
  }

  /** No bracket group opened since `o` is still open at `j`, and none was closed that was not opened. */
  ghost predicate Level(w: string, o: nat, j: nat) {
    o <= j <= |w| && Balanced(w[o..j])
  }

  /** The guesses pending before `j` outside of all bracket groups, counted from `o`. */
  ghost function Pending(w: string, z: seq<Sign>, o: nat, j: nat): int
    requires j <= |w| == |z|
  {
    if j <= o then 0
    else Pending(w, z, o, j - 1) + if Level(w, o, j - 1) then Weight(z[j - 1]) else 0
  }

  /** Up to `j` the list begun at `o` has not ended: no end of a statement, and always a guess pending. */
  ghost predicate GoesOnTo(w: string, z: seq<Sign>, o: nat, j: nat)
    requires |w| == |z|
  {
    forall k :: o <= k < j && k < |w| && Level(w, o, k) ==> z[k] != Stop && Pending(w, z, o, k + 1) > 0
  }

  /** The list begun at `o` ends at `j`: the first place at which no guess is pending any more, by a place that can end one. */
  ghost predicate EndsAt(w: string, z: seq<Sign>, o: nat, j: nat)
    requires |w| == |z|
  {
    && o < j < |w| && Level(w, o, j) && z[j] == Ender
    && Pending(w, z, o, j + 1) == 0 && GoesOnTo(w, z, o, j)
  }

  lemma EndUnique(w: string, z: seq<Sign>, o: nat, j: nat, j': nat)
    requires |w| == |z| && EndsAt(w, z, o, j) && EndsAt(w, z, o, j')
    ensures j == j'
  {
  }

  // ----- A scanner over signs -----

  datatype Outcome = Go(stack: string) | Hit | Miss

  function FlatStep(c: char, sign: Sign, s: string): Outcome {
    if IsOpen(c) then Go(s + [c])
    else if IsClose(c) then
      var t := DropWhile(s, '<');
      if t == [] || Swap(Top(t)) != c then Miss else if |t| == 1 then Hit else Go(Pop(t))
    else
      match sign
      case Guess => Go(s + ['<'])
      case Retract => if s == [] || Top(s) != '<' then Go(s) else if |s| == 1 then Miss else Go(Pop(s))
      case Ender => if s == [] || Top(s) != '<' then Go(s) else if |s| == 1 then Hit else Go(Pop(s))
      case Stop => var t := DropWhile(s, '<'); if t == [] then Miss else Go(t)
      case Plain => Go(s)
  }

  /** The place at which the scan from `j` hits, if any. */
  function FlatScan(w: string, z: seq<Sign>, j: nat, s: string): Option<nat>
    requires |w| == |z|
    decreases |w| - j
  {
    if j >= |w| then None
    else
      match FlatStep(w[j], z[j], s)
      case Go(t) => FlatScan(w, z, j + 1, t)
      case Hit => Some(j)
      case Miss => None
  }

  // ----- The scanner finds the end -----

  /** The stack begins with exactly `n` angle brackets. */
  predicate HasAngles(s: string, n: int) {
    0 <= n <= |s| && (forall i :: 0 <= i < n ==> s[i] == '<') && (n < |s| ==> s[n] != '<')
  }

  predicate IsGuessStack(s: string) {
    s != [] && s[0] == '<' && forall k :: 0 <= k < |s| ==> IsOpen(s[k]) || s[k] == '<'
  }

  lemma {:induction false} AllAngles(s: string)
    ensures Without(s, '<') == [] <==> forall i :: 0 <= i < |s| ==> s[i] == '<'
  {
    if s != [] {
      AllAngles(Pop(s));
      assert forall i :: 0 <= i < |s| - 1 ==> Pop(s)[i] == s[i];
    }
  }

  /** What a scan that began with the guess at `o` knows before it reads place `j`. */
  ghost predicate Tracks(w: string, z: seq<Sign>, o: nat, j: nat, s: string)
    requires |w| == |z|
  {
    && o < j <= |w| && IsGuessStack(s)
    && Run(w[o..j], []) == Some(Without(s, '<'))
    && HasAngles(s, Pending(w, z, o, j))
    && GoesOnTo(w, z, o, j)
  }

  lemma LevelIff(w: string, z: seq<Sign>, o: nat, j: nat, s: string)
    requires |w| == |z| && Tracks(w, z, o, j, s)
    ensures Level(w, o, j) <==> Pending(w, z, o, j) == |s|
  {
    hide Balanced, Pending, GoesOnTo;
    BalancedIffRuns(w[o..j]);
    AllAngles(s);
  }

  lemma RunNext(w: string, o: nat, j: nat, st: string)
    requires o <= j < |w| && Run(w[o..j], []) == Some(st)
    ensures Run(w[o..j + 1], []) == Step(w[j], st)
  {
    assert w[o..j + 1] == w[o..j] + [w[j]];
    RunConcat(w[o..j], [w[j]], []);
    assert [w[j]][1..] == [];
  }

  lemma PendingNext(w: string, z: seq<Sign>, o: nat, j: nat)
    requires o <= j < |w| == |z|
    ensures Pending(w, z, o, j + 1) == Pending(w, z, o, j) + if Level(w, o, j) then Weight(z[j]) else 0
  {
  }

  /** The angles at the bottom are not touched as long as there is a bracket above them. */
  lemma AnglesBelow(s: string, n: int)
    requires HasAngles(s, n) && n < |s|
    ensures forall c :: HasAngles(s + [c], n)
    ensures HasAngles(Pop(s), n)
    ensures var t := DropWhile(s, '<'); HasAngles(t, n) && n < |t| && HasAngles(Pop(t), n)
  {
    DropKeeps(s, n);
  }

  lemma {:induction false} DropKeeps(s: string, n: nat)
    requires n < |s| && s[n] != '<'
    ensures n < |DropWhile(s, '<')| && DropWhile(s, '<') <= s
  {
    if Top(s) == '<' {
      DropKeeps(Pop(s), n);
    }
  }

  lemma {:induction false} DropAll(s: string)
    requires forall i :: 0 <= i < |s| ==> s[i] == '<'
    ensures DropWhile(s, '<') == []
  {
    if s != [] {
      DropAll(Pop(s));
    }
  }

  /** The brackets of the stack change as in the textbook matcher. */
  lemma FlatStepRuns(c: char, sign: Sign, s: string)
    requires IsGuessStack(s) && (sign != Plain ==> IsNeutral(c))
    ensures match FlatStep(c, sign, s)
            case Go(t) => t != [] && IsGuessStack(t) && Step(c, Without(s, '<')) == Some(Without(t, '<'))
            case Hit => sign == Ender && Step(c, Without(s, '<')) == Some(Without(s, '<')) && |s| == 1
            case Miss => IsNeutral(c) || Step(c, Without(s, '<')) == None
  {
    hide Without, DropWhile;
    WithoutPush(s, c, '<');
    WithoutPush(s, '<', '<');
    WithoutPop(s, '<');
    DropWhileWithout(s, '<');
    if IsClose(c) {
      CloserSteps(c, s, '<');
    }
    var t := DropWhile(s, '<');
    if t != [] {
      WithoutPop(t, '<');
    }
  }

  lemma FlatStepAngles(c: char, sign: Sign, s: string, n: int)
    requires IsGuessStack(s) && HasAngles(s, n) && (sign != Plain ==> IsNeutral(c))
    ensures n < |s| ==>
              match FlatStep(c, sign, s)
              case Go(t) => HasAngles(t, n)
              case Hit => false
              case Miss => IsClose(c)
    ensures n == |s| ==>
              match FlatStep(c, sign, s)
              case Go(t) => sign != Stop && !IsClose(c) && HasAngles(t, n + Weight(sign)) && n + Weight(sign) > 0
              case Hit => sign == Ender && n == 1
              case Miss => IsClose(c) || sign == Stop || (sign == Retract && n == 1)
  {
    hide DropWhile;
    if n < |s| {
      AnglesBelow(s, n);
    } else {
      DropAll(s);
    }
  }

  lemma FlatStepTracks(w: string, z: seq<Sign>, o: nat, j: nat, s: string)
    requires |w| == |z| && Tracks(w, z, o, j, s) && j < |w| && (z[j] != Plain ==> IsNeutral(w[j]))
    ensures match FlatStep(w[j], z[j], s)
            case Go(t) => Tracks(w, z, o, j + 1, t)
            case Hit => EndsAt(w, z, o, j)
            case Miss => forall e :: !EndsAt(w, z, o, e)
  {
    hide FlatStep, Without, Balanced, Run, Pending, HasAngles;
    LevelIff(w, z, o, j, s);
    PendingNext(w, z, o, j);
    RunNext(w, o, j, Without(s, '<'));
    FlatStepRuns(w[j], z[j], s);
    FlatStepAngles(w[j], z[j], s, Pending(w, z, o, j));
    match FlatStep(w[j], z[j], s)
    case Go(t) =>
      AnglesInside(s, Pending(w, z, o, j));
    case Hit =>
      AnglesInside(s, Pending(w, z, o, j));
    case Miss =>
      AnglesInside(s, Pending(w, z, o, j));
      forall e
        ensures !EndsAt(w, z, o, e)
      {
        MissEnds(w, z, o, j, e);
      }
  }

  lemma AnglesInside(s: string, n: int)
    requires HasAngles(s, n)
    ensures 0 <= n <= |s|
  {
  }

  /** After such a place no end can come. */
  lemma MissEnds(w: string, z: seq<Sign>, o: nat, j: nat, e: nat)
    requires |w| == |z| && o < j < |w| && GoesOnTo(w, z, o, j)
    requires || (z[j] == Plain && Run(w[o..j + 1], []) == None)
             || (Level(w, o, j) && (z[j] == Stop || (z[j] == Retract && Pending(w, z, o, j + 1) == 0)))
    ensures !EndsAt(w, z, o, e)
  {
    hide Balanced, Run, Pending;
    if EndsAt(w, z, o, e) && e > j && Run(w[o..j + 1], []) == None {
      assert w[o..e] == w[o..j + 1] + w[j + 1..e];
      RunConcat(w[o..j + 1], w[j + 1..e], []);
      BalancedIffRuns(w[o..e]);
    }
  }

  lemma {:induction false} ScanEnds(w: string, z: seq<Sign>, o: nat, j: nat, s: string, e: nat)
    requires |w| == |z| && Tracks(w, z, o, j, s) && SignsNeutral(w, z)
    ensures FlatScan(w, z, j, s) == Some(e) <==> EndsAt(w, z, o, e)
    decreases |w| - j
  {
    hide FlatStep, Tracks, EndsAt;
    if j < |w| {
      FlatStepTracks(w, z, o, j, s);
      match FlatStep(w[j], z[j], s)
      case Go(t) => ScanEnds(w, z, o, j + 1, t, e);
      case Hit =>
        if EndsAt(w, z, o, e) {
          EndUnique(w, z, o, j, e);
        }
      case Miss =>
    } else {
      NoEndLeft(w, z, o, j, s, e);
    }
  }

  lemma NoEndLeft(w: string, z: seq<Sign>, o: nat, j: nat, s: string, e: nat)
    requires |w| == |z| && Tracks(w, z, o, j, s) && j >= |w|
    ensures !EndsAt(w, z, o, e)
  {
  }

  /** Only neutral characters have signs. */
  ghost predicate SignsNeutral(w: string, z: seq<Sign>)
    requires |w| == |z|
  {
    forall k :: 0 <= k < |w| && z[k] != Plain ==> IsNeutral(w[k])
  }

  /** A scan that has just pushed the guess at `o` finds the end of its list, and nothing if there is none. */
  lemma ScanFindsEnd(w: string, z: seq<Sign>, o: nat, e: nat)
    requires o < |w| == |z| && SignsNeutral(w, z) && z[o] == Guess
    ensures FlatScan(w, z, o + 1, ['<']) == Some(e) <==> EndsAt(w, z, o, e)
  {
    hide FlatScan;
    assert w[o..o] == [] && Balanced([]);
    assert Level(w, o, o);
    assert w[o..o + 1] == [w[o]] && [w[o]][1..] == [];
    WithoutPush([], '<', '<');
    assert [] + ['<'] == ['<'];
    PendingNext(w, z, o, o);
    assert Pending(w, z, o, o) == 0 && Pending(w, z, o, o + 1) == 1;
    assert GoesOnTo(w, z, o, o + 1);
    assert Run(w[o..o + 1], []) == Some([]);
    assert Tracks(w, z, o, o + 1, ['<']);
    ScanEnds(w, z, o, o + 1, ['<'], e);
  }

  // ----- Reading backwards -----

  /** The same from right to left: no group closed up to `o` is still unopened at `j`. */
  ghost predicate BackLevel(w: string, o: nat, j: nat) {
    j <= o < |w| && Balanced(w[j + 1..o + 1])
  }

  ghost function PendingBack(w: string, z: seq<Sign>, o: nat, j: nat): int
    requires o < |w| == |z|
    decreases o + 1 - j
  {
    if j > o then 0
    else PendingBack(w, z, o, j + 1) + if BackLevel(w, o, j) then Weight(z[j]) else 0
  }

  ghost predicate GoesBackTo(w: string, z: seq<Sign>, o: nat, j: nat)
    requires o < |w| == |z|
  {
    forall k :: j < k <= o && BackLevel(w, o, k) ==> z[k] != Stop && PendingBack(w, z, o, k) > 0
  }

  /** The list that ends at `o` starts at `j`. */
  ghost predicate StartsAt(w: string, z: seq<Sign>, o: nat, j: nat)
    requires o < |w| == |z|
  {
    && j < o && BackLevel(w, o, j) && z[j] == Ender
    && PendingBack(w, z, o, j) == 0 && GoesBackTo(w, z, o, j)
  }

  lemma MirrorLevel(w: string, o: nat, k: nat)
    requires k <= o < |w|
    ensures BackLevel(w, o, k) <==> Level(Mirror(w), |w| - 1 - o, |w| - 1 - k)
  {
    var x := w[k + 1..o + 1];
    assert Mirror(w)[|w| - 1 - o..|w| - 1 - k] == Mirror(x);
    BalancedMirrorIff(x);
  }

  lemma {:induction false} MirrorPending(w: string, z: seq<Sign>, o: nat, k: nat)
    requires k <= o + 1 <= |w| == |z|
    ensures PendingBack(w, z, o, k) == Pending(Mirror(w), Reverse(z), |w| - 1 - o, |w| - k)
    decreases o + 1 - k
  {
    if k <= o {
      hide Level, BackLevel;
      MirrorPending(w, z, o, k + 1);
      MirrorLevel(w, o, k);
      var m, a, b := Mirror(w), |w| - 1 - o, |w| - 1 - k;
      PendingNext(m, Reverse(z), a, b);
      assert Reverse(z)[b] == z[k];
    }
  }

  /** Reading backwards is reading the mirrored text forwards. */
  lemma StartsIffMirrorEnds(w: string, z: seq<Sign>, o: nat, j: nat)
    requires j <= o < |w| == |z|
    ensures StartsAt(w, z, o, j) <==> EndsAt(Mirror(w), Reverse(z), |w| - 1 - o, |w| - 1 - j)
  {
    hide Level, BackLevel, Pending, PendingBack, GoesBackTo, GoesOnTo;
    MirrorLevel(w, o, j);
    MirrorPending(w, z, o, j);
    assert Reverse(z)[|w| - 1 - j] == z[j];
    MirrorGoesOn(w, z, o, j);
    MirrorGoesBack(w, z, o, j);
  }

  lemma MirrorGoesOn(w: string, z: seq<Sign>, o: nat, j: nat)
    requires j <= o < |w| == |z|
    ensures GoesBackTo(w, z, o, j) ==> GoesOnTo(Mirror(w), Reverse(z), |w| - 1 - o, |w| - 1 - j)
  {
    hide Level, BackLevel, Pending, PendingBack;
    forall x | GoesBackTo(w, z, o, j) && |w| - 1 - o <= x < |w| - 1 - j && Level(Mirror(w), |w| - 1 - o, x)
      ensures Reverse(z)[x] != Stop && Pending(Mirror(w), Reverse(z), |w| - 1 - o, x + 1) > 0
    {
      var k := |w| - 1 - x;
      MirrorLevel(w, o, k);
      MirrorPending(w, z, o, k);
      assert Reverse(z)[x] == z[k];
    }
  }

  lemma MirrorGoesBack(w: string, z: seq<Sign>, o: nat, j: nat)
    requires j <= o < |w| == |z|
    ensures GoesOnTo(Mirror(w), Reverse(z), |w| - 1 - o, |w| - 1 - j) ==> GoesBackTo(w, z, o, j)
  {
    hide Level, BackLevel, Pending, PendingBack;
    if GoesOnTo(Mirror(w), Reverse(z), |w| - 1 - o, |w| - 1 - j) {
      forall k | j < k <= o && BackLevel(w, o, k)
        ensures z[k] != Stop && PendingBack(w, z, o, k) > 0
      {
        MirrorLevel(w, o, k);
        MirrorPending(w, z, o, k);
        assert Reverse(z)[|w| - 1 - k] == z[k];
      }
    }
  }

  // ----- When the two readings agree -----

  /** One reading begins where the other ends, both stop at the same places, and none takes anything back. */
  predicate Opposite(a: Sign, b: Sign) {
    && (a == Guess <==> b == Ender) && (a == Ender <==> b == Guess) && (a == Stop <==> b == Stop)
    && a != Retract && b != Retract
  }

  /** The two readings agree on all places between `o` and `j` outside of bracket groups. */
  ghost predicate Agree(w: string, a: seq<Sign>, b: seq<Sign>, o: nat, j: nat)
    requires j < |w| == |a| == |b|
  {
    forall k :: o <= k <= j && Level(w, o, k) ==> Opposite(a[k], b[k])
  }

  lemma LevelsMeet(w: string, o: nat, j: nat, k: nat)
    requires o <= k <= j < |w| && Balanced(w[o..j + 1]) && IsNeutral(w[k])
    ensures Level(w, o, k) <==> BackLevel(w, j, k)
  {
    hide Run, Balanced;
    var a, c, b := w[o..k], [w[k]], w[k + 1..j + 1];
    assert w[o..j + 1] == a + (c + b);
    RunConcat(a, c + b, []);
    BalancedIffRuns(w[o..j + 1]);
    BalancedIffRuns(a);
    BalancedIffRuns(b);
    var st := Run(a, []).value;
    RunConcat(c, b, st);
    RunNeutral(w[k], st);
    if Balanced(b) {
      BalancedRuns(b, st);
    }
  }

  lemma RunNeutral(c: char, st: string)
    requires IsNeutral(c)
    ensures Run([c], st) == Some(st)
  {
    assert [c][1..] == [];
  }

  /** Once begun, a list always has a guess pending up to its end. */
  lemma {:induction false} AlwaysPending(w: string, z: seq<Sign>, o: nat, j: nat, k: nat)
    requires |w| == |z| && o < k <= j <= |w| && GoesOnTo(w, z, o, j)
    ensures Pending(w, z, o, k) > 0
    decreases k
  {
    PendingNext(w, z, o, k - 1);
    if k == o + 1 {
      assert w[o..o] == [];
      assert Level(w, o, o);
    } else if !Level(w, o, k - 1) {
      AlwaysPending(w, z, o, j, k - 1);
    }
  }

  lemma {:induction false} PendingMeets(w: string, a: seq<Sign>, b: seq<Sign>, o: nat, j: nat, k: nat)
    requires j < |w| == |a| == |b| && SignsNeutral(w, a) && SignsNeutral(w, b)
    requires o <= k <= j + 1 && Balanced(w[o..j + 1]) && Agree(w, a, b, o, j) && Pending(w, a, o, j + 1) == 0
    ensures PendingBack(w, b, j, k) == Pending(w, a, o, k)
    decreases j + 1 - k
  {
    if k <= j {
      hide Level, BackLevel, Balanced;
      PendingMeets(w, a, b, o, j, k + 1);
      PendingNext(w, a, o, k);
      if IsNeutral(w[k]) {
        LevelsMeet(w, o, j, k);
      }
    }
  }

  /** A list that ends at `j`, read backwards from there, starts where it began, if the readings agree. */
  lemma EndsThenStarts(w: string, a: seq<Sign>, b: seq<Sign>, o: nat, j: nat)
    requires |w| == |a| == |b| && SignsNeutral(w, a) && SignsNeutral(w, b)
    requires EndsAt(w, a, o, j) && a[o] == Guess && Agree(w, a, b, o, j)
    ensures StartsAt(w, b, j, o) && b[j] == Guess
  {
    hide Pending, PendingBack, Balanced, Run;
    assert w[o..j + 1] == w[o..j] + [w[j]];
    BalancedNeutral(w[j]);
    BalancedConcat(w[o..j], [w[j]]);
    assert w[o..o] == [];
    BalancedIffRuns([]);
    RunNil();
    assert Level(w, o, o);
    LevelsMeet(w, o, j, o);
    PendingMeets(w, a, b, o, j, o);
    PendingStart(w, a, o);
    forall k | o < k <= j && BackLevel(w, j, k)
      ensures b[k] != Stop && PendingBack(w, b, j, k) > 0
    {
      PendingMeets(w, a, b, o, j, k);
      AlwaysPending(w, a, o, j, k);
      if IsNeutral(w[k]) {
        LevelsMeet(w, o, j, k);
      }
    }
  }

  lemma PendingStart(w: string, z: seq<Sign>, o: nat)
    requires o <= |w| == |z|
    ensures Pending(w, z, o, o) == 0
  {
  }

  lemma RunNil()
    ensures Run([], []) == Some([])
  {
  }

  lemma BalancedNeutral(c: char)
    requires IsNeutral(c)
    ensures Balanced([c])
  {
    assert [c][1..] == [];
  }

  /** The two readings agree, seen from the right end. */
  ghost predicate AgreeBack(w: string, a: seq<Sign>, b: seq<Sign>, o: nat, j: nat)
    requires o < |w| == |a| == |b|
  {
    forall k :: j <= k <= o && BackLevel(w, o, k) ==> Opposite(a[k], b[k])
  }

  lemma StartsThenEnds(w: string, a: seq<Sign>, b: seq<Sign>, o: nat, j: nat)
    requires |w| == |a| == |b| && o < |w| && SignsNeutral(w, a) && SignsNeutral(w, b)
    requires StartsAt(w, b, o, j) && b[o] == Guess && AgreeBack(w, a, b, o, j)
    ensures EndsAt(w, a, j, o) && a[j] == Guess
  {
    hide EndsAt, StartsAt, AgreeBack, Agree, SignsNeutral, Mirror, Reverse;
    var n := |w|;
    StartsFacts(w, b, o, j);
    MirrorStarts(w, a, b, o, j);
    MirrorTwice(w);
    ReverseTwice(a);
    StartsIffMirrorEnds(Mirror(w), Reverse(a), n - 1 - j, n - 1 - o);
    assert n - 1 - (n - 1 - j) == j && n - 1 - (n - 1 - o) == o;
    AgreesAtStart(w, a, b, o, j);
  }

  lemma AgreesAtStart(w: string, a: seq<Sign>, b: seq<Sign>, o: nat, j: nat)
    requires o < |w| == |a| == |b| && StartsAt(w, b, o, j) && AgreeBack(w, a, b, o, j)
    ensures a[j] == Guess
  {
  }

  lemma MirrorStarts(w: string, a: seq<Sign>, b: seq<Sign>, o: nat, j: nat)
    requires |w| == |a| == |b| && j <= o < |w| && SignsNeutral(w, a) && SignsNeutral(w, b)
    requires StartsAt(w, b, o, j) && b[o] == Guess && AgreeBack(w, a, b, o, j)
    ensures StartsAt(Mirror(w), Reverse(a), |w| - 1 - j, |w| - 1 - o)
  {
    hide EndsAt, StartsAt, AgreeBack, Agree, SignsNeutral, Mirror, Reverse;
    StartsIffMirrorEnds(w, b, o, j);
    MirrorSigns(w, a);
    MirrorSigns(w, b);
    MirrorAgree(w, a, b, o, j);
    assert Reverse(b)[|w| - 1 - o] == b[o];
    EndsThenStarts(Mirror(w), Reverse(b), Reverse(a), |w| - 1 - o, |w| - 1 - j);
  }

  lemma ReverseTwice<T>(s: seq<T>)
    ensures Reverse(Reverse(s)) == s
  {
  }

  lemma MirrorSigns(w: string, z: seq<Sign>)
    requires |w| == |z| && SignsNeutral(w, z)
    ensures SignsNeutral(Mirror(w), Reverse(z))
  {
    forall k | 0 <= k < |w| && Reverse(z)[k] != Plain
      ensures IsNeutral(Mirror(w)[k])
    {
      assert Mirror(w)[k] == Swap(w[|w| - 1 - k]);
    }
  }

  lemma MirrorAgree(w: string, a: seq<Sign>, b: seq<Sign>, o: nat, j: nat)
    requires j <= o < |w| == |a| == |b| && AgreeBack(w, a, b, o, j)
    ensures Agree(Mirror(w), Reverse(b), Reverse(a), |w| - 1 - o, |w| - 1 - j)
  {
    hide Level, BackLevel;
    forall x | |w| - 1 - o <= x <= |w| - 1 - j && Level(Mirror(w), |w| - 1 - o, x)
      ensures Opposite(Reverse(b)[x], Reverse(a)[x])
    {
      MirrorLevel(w, o, |w| - 1 - x);
    }
  }

  lemma StartsFacts(w: string, z: seq<Sign>, o: nat, j: nat)
    requires o < |w| == |z| && StartsAt(w, z, o, j)
    ensures j < o
  {
  }
}
