/**
 Assertion codes of buildscripts/errorcodes.py: finding duplicates, choosing the next code, and
 replacing zero codes in the source files. The locations found by the scanner are the input.
 */
module ErrorCodes {
  import opened Options
  import opened Sequences

  datatype Location = Location(file: string, offset: nat, lines: string, code: string)

  // ----- Numbers -----

  predicate IsDigit(c: char) {
    '0' <= c <= '9'
  }

  predicate IsDigits(s: string) {
    s != [] && forall i :: 0 <= i < |s| ==> IsDigit(s[i])
  }

  function Digit(c: char): nat
    requires IsDigit(c)
  {
    (c as int) - ('0' as int)
  }

  function ParseInt(s: string): nat
    requires IsDigits(s)
  {
    var d := Digit(s[|s| - 1]);
    if |s| == 1 then d else 10 * ParseInt(s[..|s| - 1]) + d
  }

  function FormatInt(n: nat): (s: string)
    ensures IsDigits(s)
  {
    var d := [('0' as int + n % 10) as char];
    if n < 10 then d else FormatInt(n / 10) + d
  }

  lemma {:induction false} ParseFormat(n: nat)
    ensures ParseInt(FormatInt(n)) == n
  {
    if n >= 10 {
      ParseFormat(n / 10);
      var s := FormatInt(n);
      assert s[..|s| - 1] == FormatInt(n / 10);
    }
  }

  // ----- Duplicates -----

  function CodeCount(found: seq<Location>, code: string): nat {
    if found == [] then 0
    else CodeCount(found[..|found| - 1], code) + if found[|found| - 1].code == code then 1 else 0
  }

  /** The first location with this code. */
  function FirstWith(found: seq<Location>, code: string): Location
    requires CodeCount(found, code) > 0
  {
    var r := found[..|found| - 1];
    if CodeCount(r, code) > 0 then FirstWith(r, code) else found[|found| - 1]
  }

  /** What the callback collects over all locations. */
  function DuplicateErrors(found: seq<Location>): seq<Location> {
    if found == [] then []
    else
      var r, x := found[..|found| - 1], found[|found| - 1];
      DuplicateErrors(r) + NewErrors(r, x)
  }

  lemma {:induction false} CountZero(found: seq<Location>, loc: Location)
    requires CodeCount(found, loc.code) == 0
    ensures loc !in found && multiset(found)[loc] == 0
  {
    if found != [] {
      var r := found[..|found| - 1];
      assert found == r + [found[|found| - 1]];
      CountZero(r, loc);
    }
  }

  lemma {:induction false} CountOne(found: seq<Location>, loc: Location)
    requires CodeCount(found, loc.code) == 1
    ensures FirstWith(found, loc.code).code == loc.code
    ensures multiset(found)[loc] == if loc == FirstWith(found, loc.code) then 1 else 0
  {
    var r, x := found[..|found| - 1], found[|found| - 1];
    assert found == r + [x];
    if x.code == loc.code {
      CountZero(r, loc);
    } else {
      CountOne(r, loc);
    }
  }

  lemma {:induction false} CountPositive(found: seq<Location>, loc: Location)
    requires loc in found
    ensures CodeCount(found, loc.code) > 0
  {
    var r, x := found[..|found| - 1], found[|found| - 1];
    assert found == r + [x];
    if loc in r {
      CountPositive(r, loc);
    }
  }

  lemma {:induction false} FirstIsFound(found: seq<Location>, code: string)
    requires CodeCount(found, code) > 0
    ensures FirstWith(found, code) in found && FirstWith(found, code).code == code
  {
    var r := found[..|found| - 1];
    assert found == r + [found[|found| - 1]];
    if CodeCount(r, code) > 0 {
      FirstIsFound(r, code);
    }
  }

  /** What the callback collects for `x` after the locations `r`: with a second location also the first one. */
  function NewErrors(r: seq<Location>, x: Location): seq<Location> {
    var n := CodeCount(r, x.code);
    if n == 0 then [] else if n == 1 then [FirstWith(r, x.code), x] else [x]
  }

  lemma NewErrorsCount(r: seq<Location>, x: Location, loc: Location)
    ensures multiset(NewErrors(r, x))[loc] ==
            (if loc.code != x.code then 0
             else if CodeCount(r, x.code) == 0 then 0
             else if CodeCount(r, x.code) == 1 then multiset(r)[loc] + multiset([x])[loc]
             else multiset([x])[loc])
  {
    var n := CodeCount(r, x.code);
    if n > 0 {
      FirstIsFound(r, x.code);
    }
    if n == 1 && loc.code == x.code {
      CountOne(r, loc);
      assert [FirstWith(r, x.code), x] == [FirstWith(r, x.code)] + [x];
    }
  }

  /** The locations collected are exactly, and exactly as often, those whose code occurs more than once. */
  lemma {:induction false} DuplicatesExactly(found: seq<Location>, loc: Location)
    ensures multiset(DuplicateErrors(found))[loc] ==
            if CodeCount(found, loc.code) >= 2 then multiset(found)[loc] else 0
  {
    if found != [] {
      var r, x := found[..|found| - 1], found[|found| - 1];
      hide FirstWith, NewErrors;
      assert found == r + [x];
      DuplicatesExactly(r, loc);
      NewErrorsCount(r, x, loc);
    }
  }

  /** The locations with the given code, in the order they were found. */
  function WithCode(found: seq<Location>, code: string): seq<Location> {
    if found == [] then []
    else WithCode(found[..|found| - 1], code) + if found[|found| - 1].code == code then [found[|found| - 1]] else []
  }

  lemma {:induction false} WithCodeConcat(a: seq<Location>, b: seq<Location>, code: string)
    ensures WithCode(a + b, code) == WithCode(a, code) + WithCode(b, code)
    decreases |b|
  {
    if b == [] {
      assert a + b == a;
    } else {
      assert (a + b)[..|a + b| - 1] == a + b[..|b| - 1];
      WithCodeConcat(a, b[..|b| - 1], code);
    }
  }

  lemma {:induction false} WithCodeCount(found: seq<Location>, code: string)
    ensures |WithCode(found, code)| == CodeCount(found, code)
    ensures CodeCount(found, code) > 0 ==> WithCode(found, code)[0] == FirstWith(found, code)
  {
    if found != [] {
      WithCodeCount(found[..|found| - 1], code);
    }
  }

  /** The locations of a repeated code are collected in the order they were found, the first one included. */
  lemma {:induction false} DuplicatesInOrder(found: seq<Location>, code: string)
    ensures WithCode(DuplicateErrors(found), code) == if CodeCount(found, code) >= 2 then WithCode(found, code) else []
  {
    if found != [] {
      var r, x := found[..|found| - 1], found[|found| - 1];
      DuplicatesInOrder(r, code);
      WithCodeConcat(DuplicateErrors(r), NewErrors(r, x), code);
      WithCodeCount(r, code);
      NewErrorsWithCode(r, x, code);
    }
  }

  lemma WithCodeOne(x: Location, code: string)
    ensures WithCode([x], code) == if x.code == code then [x] else []
  {
    assert [x][..0] == [];
  }

  lemma WithCodeTwo(x: Location, y: Location, code: string)
    requires x.code == y.code
    ensures WithCode([x, y], code) == if x.code == code then [x, y] else []
  {
    hide WithCode;
    assert [x, y] == [x] + [y];
    WithCodeConcat([x], [y], code);
    WithCodeOne(x, code);
    WithCodeOne(y, code);
  }

  lemma NewErrorsWithCode(r: seq<Location>, x: Location, code: string)
    ensures WithCode(NewErrors(r, x), code) ==
            if x.code != code || CodeCount(r, code) == 0 then []
            else if CodeCount(r, code) == 1 then [FirstWith(r, code), x] else [x]
  {
    hide WithCode, CodeCount, FirstWith;
    if CodeCount(r, x.code) == 0 {
      WithCodeEmpty(code);
    } else if CodeCount(r, x.code) == 1 {
      FirstIsFound(r, x.code);
      WithCodeTwo(FirstWith(r, x.code), x, code);
    } else {
      WithCodeOne(x, code);
    }
  }

  lemma WithCodeEmpty(code: string)
    ensures WithCode([], code) == []
  {
  }

  const ZERO := "0"

  /** The errors `readErrorCodes` returns: all duplicates, and the first zero code once more. */
  function ErrorsOf(found: seq<Location>): seq<Location> {
    DuplicateErrors(found) + if CodeCount(found, ZERO) > 0 then [FirstWith(found, ZERO)] else []
  }

  /** A location is an error exactly when its code is zero or occurs more than once. */
  lemma ErrorIff(found: seq<Location>, loc: Location)
    requires loc in found
    ensures loc in ErrorsOf(found) <==>
            CodeCount(found, loc.code) >= 2 || loc.code == ZERO
  {
    DuplicatesExactly(found, loc);
    MultisetMember(DuplicateErrors(found), loc);
    MultisetMember(found, loc);
    CountPositive(found, loc);
    if CodeCount(found, ZERO) > 0 {
      FirstIsFound(found, ZERO);
      if loc.code == ZERO && CodeCount(found, ZERO) == 1 {
        CountOne(found, loc);
      }
    }
  }

  /** The locations collected were found. */
  lemma ErrorsAreFound(found: seq<Location>, loc: Location)
    requires loc in ErrorsOf(found)
    ensures loc in found
  {
    DuplicatesExactly(found, loc);
    MultisetMember(DuplicateErrors(found), loc);
    MultisetMember(found, loc);
    if CodeCount(found, ZERO) > 0 {
      FirstIsFound(found, ZERO);
    }
  }

  /** `checkErrorCodes` is content exactly when the codes are pairwise different and none is zero. */
  lemma NoErrorsIff(found: seq<Location>)
    ensures ErrorsOf(found) == [] <==>
            forall i :: 0 <= i < |found| ==> CodeCount(found, found[i].code) == 1 && found[i].code != ZERO
  {
    hide CodeCount, DuplicateErrors, FirstWith, ErrorsOf;
    var errors := ErrorsOf(found);
    forall i | 0 <= i < |found|
      ensures found[i] in errors <==> CodeCount(found, found[i].code) != 1 || found[i].code == ZERO
    {
      ErrorIff(found, found[i]);
      CountPositive(found, found[i]);
    }
    if errors != [] {
      ErrorsAreFound(found, errors[0]);
      var i :| 0 <= i < |found| && found[i] == errors[0];
      assert found[i] in errors;
    }
  }

  /** The dictionaries of the callback after the locations `p`. */
  ghost predicate Tracks(p: seq<Location>, seen: map<string, Location>, dups: map<string, seq<Location>>, errors: seq<Location>) {
    && (forall c :: c in seen <==> CodeCount(p, c) > 0)
    && (forall c :: c in seen ==> seen[c] == FirstWith(p, c))
    && (forall c :: c in dups <==> CodeCount(p, c) > 1)
    && errors == DuplicateErrors(p)
  }

  lemma CountPush(p: seq<Location>, x: Location, c: string)
    ensures CodeCount(p + [x], c) == CodeCount(p, c) + if x.code == c then 1 else 0
    ensures CodeCount(p, c) > 0 ==> FirstWith(p + [x], c) == FirstWith(p, c)
    ensures CodeCount(p, c) == 0 && x.code == c ==> FirstWith(p + [x], c) == x
  {
    assert (p + [x])[..|p + [x]| - 1] == p;
  }

  lemma DuplicatePush(p: seq<Location>, x: Location)
    ensures DuplicateErrors(p + [x]) == DuplicateErrors(p) + NewErrors(p, x)
  {
    assert (p + [x])[..|p + [x]| - 1] == p;
  }

  lemma TracksPush(
    p: seq<Location>, x: Location, seen: map<string, Location>, dups: map<string, seq<Location>>, errors: seq<Location>,
    seen': map<string, Location>, dups': map<string, seq<Location>>, errors': seq<Location>)
    requires Tracks(p, seen, dups, errors)
    requires seen' == if x.code in seen then seen else seen[x.code := x]
    requires dups'.Keys == if x.code in seen then dups.Keys + {x.code} else dups.Keys
    requires errors' == errors + if x.code !in seen then [] else if x.code !in dups then [seen[x.code], x] else [x]
    ensures Tracks(p + [x], seen', dups', errors')
  {
    hide CodeCount, FirstWith, DuplicateErrors;
    DuplicatePush(p, x);
    forall c
      ensures CodeCount(p + [x], c) == CodeCount(p, c) + if x.code == c then 1 else 0
      ensures CodeCount(p, c) > 0 ==> FirstWith(p + [x], c) == FirstWith(p, c)
      ensures CodeCount(p, c) == 0 && x.code == c ==> FirstWith(p + [x], c) == x
    {
      CountPush(p, x, c);
    }
    assert errors' == DuplicateErrors(p + [x]);
  }

  /** The global list of codes. */
  class Codes {
    var codes: seq<Location>

    constructor ()
      ensures codes == []
    {
      codes := [];
    }

    method ReadErrorCodes(found: seq<Location>) returns (errors: seq<Location>)
      modifies this
      ensures codes == old(codes) + found
      ensures errors == ErrorsOf(found)
    {
      var seen: map<string, Location> := map[];
      var dups: map<string, seq<Location>> := map[];
      errors := [];
      var i := 0;
      assert found[..0] == [];
      assert Tracks(found[..0], seen, dups, errors);
      hide CodeCount, FirstWith, DuplicateErrors;
      while i < |found|
        invariant 0 <= i <= |found|
        invariant codes == old(codes) + found[..i]
        invariant Tracks(found[..i], seen, dups, errors)
      {
        var x := found[i];
        ghost var seen0, dups0, errors0 := seen, dups, errors;
        assert found[..i + 1] == found[..i] + [x];
        codes := codes + [x];
        if x.code !in seen {
          seen := seen[x.code := x];
        } else {
          if x.code !in dups {
            dups := dups[x.code := [seen[x.code]]];
            errors := errors + [seen[x.code]];
          }
          dups := dups[x.code := dups[x.code] + [x]];
          errors := errors + [x];
        }
        TracksPush(found[..i], x, seen0, dups0, errors0, seen, dups, errors);
        i := i + 1;
      }
      assert found[..i] == found;
      if ZERO in seen {
        errors := errors + [seen[ZERO]];
      }
    }

    /**
     Reads the codes if none is known yet. `None` stands for the type error that is raised when
     fewer than two codes are known then.
     */
    method GetNextCode(found: seq<Location>) returns (r: Option<int>)
      requires forall loc :: loc in codes || loc in found ==> IsDigits(loc.code)
      modifies this
      ensures codes == if old(codes) == [] then found else old(codes)
      ensures r.None? <==> |codes| < 2
      ensures r.Some? ==> forall loc :: loc in codes ==> r.value > ParseInt(loc.code)
      ensures r.Some? ==> exists loc :: loc in codes && r.value == ParseInt(loc.code) + 1
    {
      if |codes| == 0 {
        var _ := ReadErrorCodes(found);
      }
      if |codes| < 2 {
        return None;
      }
      assert codes[0] in codes;
      var highest := ParseInt(codes[0].code);
      var i := 1;
      while i < |codes|
        invariant 1 <= i <= |codes|
        invariant forall j :: 0 <= j < i ==> highest >= ParseInt(codes[j].code)
        invariant exists j :: 0 <= j < i && highest == ParseInt(codes[j].code)
      {
        assert codes[i] in codes;
        var n := ParseInt(codes[i].code);
        if n > highest {
          highest := n;
        }
        i := i + 1;
      }
      r := Some(highest + 1);
    }
  }
}
