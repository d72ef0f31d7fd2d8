/**
 `replaceBadCodes` of buildscripts/errorcodes.py: zero codes are overwritten in the source files
 one after the other, from the highest offset down, so that offsets need not be updated.
 */
module ErrorRepair {
  import opened Options
  import opened Sequences
  import opened Sorting
  import opened ErrorCodes

  // ----- The order of work -----

  /** Locations compare as tuples. */
  predicate LocationLe(a: Location, b: Location) {
    if a.file != b.file then StringLe(a.file, b.file)
    else if a.offset != b.offset then a.offset <= b.offset
    else if a.lines != b.lines then StringLe(a.lines, b.lines)
    else StringLe(a.code, b.code)
  }

  lemma LocationLeIsTotalOrder()
    ensures TotalOrder(LocationLe)
  {
    hide StringLe;
    StringLeIsTotalOrder();
    forall a, b
      ensures LocationLe(a, b) || LocationLe(b, a)
      ensures LocationLe(a, b) && LocationLe(b, a) ==> a == b
    {
      StringLeTotal(a.file, b.file);
      StringLeTotal(a.lines, b.lines);
      StringLeTotal(a.code, b.code);
    }
    forall a, b, c
      ensures LocationLe(a, b) && LocationLe(b, c) ==> LocationLe(a, c)
    {
      LocationLeTransitive(a, b, c);
    }
  }

  lemma LocationLeTransitive(a: Location, b: Location, c: Location)
    ensures LocationLe(a, b) && LocationLe(b, c) ==> LocationLe(a, c)
  {
    hide StringLe;
    StringLeTotal(a.file, b.file);
    StringLeTotal(b.file, c.file);
    StringLeTotal(a.lines, b.lines);
    StringLeTotal(b.lines, c.lines);
    StringLeTransitive(a.file, b.file, c.file);
    StringLeTransitive(a.lines, b.lines, c.lines);
    StringLeTransitive(a.code, b.code, c.code);
  }

  predicate IsZero(loc: Location)
    requires IsDigits(loc.code)
  {
    ParseInt(loc.code) == 0
  }

  predicate HaveDigits(locs: seq<Location>) {
    forall i :: 0 <= i < |locs| ==> IsDigits(locs[i].code)
  }

  /** The zero codes among the errors, each once. */
  function Zeros(errors: seq<Location>): (zs: seq<Location>)
    requires HaveDigits(errors)
    ensures NoDuplicates(zs)
    ensures forall z :: z in zs <==> z in errors && IsDigits(z.code) && IsZero(z)
  {
    if errors == [] then []
    else
      var r, x := errors[..|errors| - 1], errors[|errors| - 1];
      assert errors == r + [x];
      if IsZero(x) && x !in Zeros(r) then Zeros(r) + [x] else Zeros(r)
  }

  /** Deduplicated, sorted and reversed. */
  function Worklist(errors: seq<Location>): seq<Location>
    requires HaveDigits(errors)
  {
    Reverse(Sort(Zeros(errors), (l: Location) => l, LocationLe))
  }

  /** No two of the locations are at the same place. */
  ghost predicate PlacesDiffer(locs: seq<Location>) {
    forall a, b :: a in locs && b in locs && a.file == b.file && a.offset == b.offset ==> a == b
  }

  /** Later entries of one file have smaller offsets. */
  ghost predicate Descends(zs: seq<Location>) {
    forall i, j :: 0 <= i < j < |zs| && zs[i].file == zs[j].file ==> zs[i].offset > zs[j].offset
  }

  lemma WorklistMembers(errors: seq<Location>, z: Location)
    requires HaveDigits(errors)
    ensures z in Worklist(errors) <==> z in errors && IsDigits(z.code) && IsZero(z)
  {
    hide Sort, LocationLe;
    var s := Sort(Zeros(errors), (l: Location) => l, LocationLe);
    SortKeeps(Zeros(errors), (l: Location) => l, LocationLe);
    MultisetMember(s, z);
    MultisetMember(Zeros(errors), z);
    var w := Reverse(s);
    if z in s {
      var i :| 0 <= i < |s| && s[i] == z;
      assert w[|s| - 1 - i] == z;
    }
  }

  lemma WorklistLength(errors: seq<Location>)
    requires HaveDigits(errors)
    ensures |Worklist(errors)| == |Zeros(errors)|
  {
    hide Sort, LocationLe, Zeros;
    SortKeeps(Zeros(errors), (l: Location) => l, LocationLe);
  }

  lemma WorklistDescends(errors: seq<Location>)
    requires HaveDigits(errors) && PlacesDiffer(Zeros(errors))
    ensures Descends(Worklist(errors))
  {
    hide Sort, LocationLe, TotalOrder, Zeros;
    var key := (l: Location) => l;
    var zs := Zeros(errors);
    var s := Sort(zs, key, LocationLe);
    LocationLeIsTotalOrder();
    SortKeeps(zs, key, LocationLe);
    SortSorts(zs, key, LocationLe);
    DistinctPermutation(zs, s);
    var w := Worklist(errors);
    forall i, j | 0 <= i < j < |w| && w[i].file == w[j].file
      ensures w[i].offset > w[j].offset
    {
      var a, b := |s| - 1 - j, |s| - 1 - i;
      assert LocationLe(key(s[a]), key(s[b]));
      LeMeansBefore(s[a], s[b]);
      MultisetMember(s, s[a]);
      MultisetMember(s, s[b]);
      MultisetMember(zs, s[a]);
      MultisetMember(zs, s[b]);
    }
  }

  /** The files come in descending order of their names. */
  lemma WorklistByFile(errors: seq<Location>, i: nat, j: nat)
    requires HaveDigits(errors) && i < j < |Worklist(errors)| && Worklist(errors)[i].file != Worklist(errors)[j].file
    ensures Precedes(Worklist(errors)[j].file, Worklist(errors)[i].file)
  {
    hide Sort, TotalOrder, Zeros, StringLe, Precedes;
    var key := (l: Location) => l;
    var s := Sort(Zeros(errors), key, LocationLe);
    LocationLeIsTotalOrder();
    SortSorts(Zeros(errors), key, LocationLe);
    var a, b := |s| - 1 - j, |s| - 1 - i;
    assert LocationLe(key(s[a]), key(s[b]));
    StringLeIff(s[a].file, s[b].file);
  }

  lemma LeMeansBefore(a: Location, b: Location)
    requires LocationLe(a, b) && a.file == b.file
    ensures a.offset <= b.offset
  {
  }

  // ----- Simultaneous substitution -----

  type Edits = map<nat, string>

  /** Every position named in `m` replaced at once by the text `m` gives for it. */
  function Subst(text: string, m: Edits): string {
    if text == [] then []
    else
      var i := |text| - 1;
      Subst(text[..i], m) + if i in m then m[i] else [text[i]]
  }

  lemma {:induction false} SubstNothing(text: string, m: Edits)
    requires forall i :: i in m ==> i >= |text|
    ensures Subst(text, m) == text
  {
    if text != [] {
      SubstNothing(text[..|text| - 1], m);
      assert text == text[..|text| - 1] + [text[|text| - 1]];
    }
  }

  lemma SubstLast(text: string, m: Edits)
    requires text != []
    ensures var i := |text| - 1; Subst(text, m) == Subst(text[..i], m) + if i in m then m[i] else [text[i]]
  {
  }

  /** Text in front of all edits stays where it is. */
  lemma {:induction false} SubstKeepsFront(text: string, m: Edits, n: nat)
    requires n <= |text| && forall i :: i in m ==> i >= n
    ensures |Subst(text, m)| >= n && Subst(text, m)[..n] == text[..n]
    decreases |text|
  {
    if |text| == n {
      SubstNothing(text, m);
    } else {
      hide Subst;
      SubstKeepsFront(text[..|text| - 1], m, n);
      SubstLast(text, m);
    }
  }

  /** An edit in front of all others can be made afterwards in the edited text. */
  lemma {:induction false} SubstFront(text: string, m: Edits, o: nat, code: string)
    requires o < |text| && forall i :: i in m ==> i > o
    ensures |Subst(text, m)| > o
    ensures Subst(text, m[o := code]) == Subst(text, m)[..o] + code + Subst(text, m)[o + 1..]
    decreases |text|
  {
    hide Subst;
    var i := |text| - 1;
    var r := text[..i];
    SubstKeepsFront(text, m, o + 1);
    SubstLast(text, m);
    SubstLast(text, m[o := code]);
    if i == o {
      SubstNothing(r, m);
      SubstNothing(r, m[o := code]);
    } else {
      SubstFront(r, m, o, code);
      var piece := if i in m then m[i] else [text[i]];
      AppendBehind(Subst(r, m), piece, o);
    }
  }

  lemma AppendBehind(s: string, piece: string, o: nat)
    requires o < |s|
    ensures (s + piece)[..o] == s[..o] && (s + piece)[o + 1..] == s[o + 1..] + piece
  {
  }

  // ----- Editing in place -----

  type Texts = map<string, string>

  /** Writing from the start of a file opened for update does not shorten it. */
  function WriteOver(before: string, written: string): string {
    if |written| >= |before| then written else written + before[|written|..]
  }

  /** One repair; `None` if the file or the zero is not there. */
  function RepairOne(texts: Texts, loc: Location, code: nat): Option<Texts> {
    if loc.file !in texts || loc.offset >= |texts[loc.file]| || texts[loc.file][loc.offset] != '0' then None
    else
      var t, o := texts[loc.file], loc.offset;
      Some(texts[loc.file := WriteOver(t, t[..o] + FormatInt(code) + t[o + 1..])])
  }

  /** The first `k` repairs of the worklist, with codes counted up from `next`. */
  function Repair(texts: Texts, zs: seq<Location>, k: nat, next: nat): Option<Texts>
    requires k <= |zs|
  {
    if k == 0 then Some(texts)
    else
      var r := Repair(texts, zs, k - 1, next);
      if r.None? then None else RepairOne(r.value, zs[k - 1], next + k - 1)
  }

  /** The edits of one file after `k` repairs. */
  function EditsOf(zs: seq<Location>, k: nat, next: nat, file: string): Edits
    requires k <= |zs|
  {
    if k == 0 then map[]
    else
      var m := EditsOf(zs, k - 1, next, file);
      if zs[k - 1].file == file then m[zs[k - 1].offset := FormatInt(next + k - 1)] else m
  }

  lemma {:induction false} EditsAre(zs: seq<Location>, k: nat, next: nat, file: string)
    requires k <= |zs| && Descends(zs)
    ensures forall j :: 0 <= j < k && zs[j].file == file ==>
              zs[j].offset in EditsOf(zs, k, next, file) && EditsOf(zs, k, next, file)[zs[j].offset] == FormatInt(next + j)
    ensures forall o :: o in EditsOf(zs, k, next, file) ==> exists j :: 0 <= j < k && zs[j].file == file && zs[j].offset == o
  {
    if k > 0 {
      EditsAre(zs, k - 1, next, file);
    }
  }

  /** Each entry of the worklist points at a zero of its file. */
  ghost predicate PointAtZeros(texts: Texts, zs: seq<Location>) {
    forall i :: 0 <= i < |zs| ==>
      zs[i].file in texts && zs[i].offset < |texts[zs[i].file]| && texts[zs[i].file][zs[i].offset] == '0'
  }

  /**
   Repairing one location after the other, each in the text left by the one before, gives the
   simultaneous substitution of all of them in the original text; the check for the zero never
   fails.
   */
  lemma {:induction false} RepairIsSubstitution(texts: Texts, zs: seq<Location>, k: nat, next: nat)
    requires k <= |zs| && Descends(zs) && PointAtZeros(texts, zs)
    ensures Repair(texts, zs, k, next).Some?
    ensures Repair(texts, zs, k, next).value.Keys == texts.Keys
    ensures forall f :: f in texts ==> Repair(texts, zs, k, next).value[f] == Subst(texts[f], EditsOf(zs, k, next, f))
  {
    hide Subst, FormatInt, RepairOne;
    if k == 0 {
      forall f | f in texts
        ensures Subst(texts[f], map[]) == texts[f]
      {
        SubstNothing(texts[f], map[]);
      }
    } else {
      hide Repair, EditsOf;
      RepairIsSubstitution(texts, zs, k - 1, next);
      RepairNext(texts, zs, k - 1, next);
      var before, z := Repair(texts, zs, k - 1, next).value, zs[k - 1];
      EditsAre(zs, k - 1, next, z.file);
      RepairOneIsEdit(texts[z.file], before, z, EditsOf(zs, k - 1, next, z.file), next + k - 1);
      hide Descends, PointAtZeros;
      forall f | f in texts
        ensures Repair(texts, zs, k, next).value[f] == Subst(texts[f], EditsOf(zs, k, next, f))
      {
        EditsNext(zs, k, next, f);
      }
    }
  }

  lemma EditsNext(zs: seq<Location>, k: nat, next: nat, file: string)
    requires 0 < k <= |zs|
    ensures var m := EditsOf(zs, k - 1, next, file);
            EditsOf(zs, k, next, file) ==
            if zs[k - 1].file == file then m[zs[k - 1].offset := FormatInt(next + k - 1)] else m
  {
  }

  /** One repair is one more edit, in front of all others in its file. */
  lemma RepairOneIsEdit(text: string, before: Texts, z: Location, m: Edits, code: nat)
    requires z.file in before && before[z.file] == Subst(text, m)
    requires z.offset < |text| && text[z.offset] == '0' && forall i :: i in m ==> i > z.offset
    ensures RepairOne(before, z, code) == Some(before[z.file := Subst(text, m[z.offset := FormatInt(code)])])
  {
    hide Subst, FormatInt;
    SubstKeepsFront(text, m, z.offset + 1);
    SubstFront(text, m, z.offset, FormatInt(code));
    var t := before[z.file];
    assert t[z.offset] == t[..z.offset + 1][z.offset] == text[z.offset];
    NotEmpty(code);
  }

  lemma NotEmpty(code: nat)
    ensures |FormatInt(code)| >= 1
  {
  }

  /** The check fails at entry `k` of the worklist, with the repairs before it made. */
  ghost predicate StopsAt(texts: Texts, zs: seq<Location>, k: nat, next: nat, after: Texts)
    requires k < |zs|
  {
    Repair(texts, zs, k, next) == Some(after) && RepairOne(after, zs[k], next + k).None?
  }

  class SourceFiles {
    var texts: Texts

    constructor (texts: Texts)
      ensures this.texts == texts
    {
      this.texts := texts;
    }

    /** Returns whether all repairs were made; a failed check stops the work. */
    method ReplaceBadCodes(errors: seq<Location>, nextCode: nat) returns (ok: bool)
      requires HaveDigits(errors)
      modifies this
      ensures var w := Worklist(errors);
              var r := Repair(old(texts), w, |w|, nextCode);
              ok == r.Some? && (ok ==> texts == r.value)
      // At a failed check the files hold the repairs made so far.
      ensures var w := Worklist(errors);
              !ok ==> exists k :: 0 <= k < |w| && StopsAt(old(texts), w, k, nextCode, texts)
    {
      hide Worklist, FormatInt, Repair, WriteOver;
      var w := Worklist(errors);
      RepairNone(texts, w, nextCode);
      var next := nextCode;
      var i := 0;
      while i < |w|
        invariant 0 <= i <= |w| && next == nextCode + i
        invariant Repair(old(texts), w, i, nextCode) == Some(texts)
      {
        var loc := w[i];
        RepairNext(old(texts), w, i, nextCode);
        if loc.file !in texts || loc.offset >= |texts[loc.file]| || texts[loc.file][loc.offset] != '0' {
          RepairStops(old(texts), w, i + 1, |w|, nextCode);
          assert StopsAt(old(texts), w, i, nextCode, texts);
          return false;
        }
        var text := texts[loc.file];
        var written := text[..loc.offset] + FormatInt(next) + text[loc.offset + 1..];
        texts := texts[loc.file := WriteOver(text, written)];
        next := next + 1;
        i := i + 1;
      }
      return true;
    }
  }

  lemma RepairNone(texts: Texts, zs: seq<Location>, next: nat)
    ensures Repair(texts, zs, 0, next) == Some(texts)
  {
  }

  lemma RepairNext(texts: Texts, zs: seq<Location>, k: nat, next: nat)
    requires k < |zs|
    ensures var r := Repair(texts, zs, k, next);
            Repair(texts, zs, k + 1, next) == if r.None? then None else RepairOne(r.value, zs[k], next + k)
  {
  }

  lemma {:induction false} RepairStops(texts: Texts, zs: seq<Location>, j: nat, k: nat, next: nat)
    requires j <= k <= |zs| && Repair(texts, zs, j, next).None?
    ensures Repair(texts, zs, k, next).None?
    decreases k
  {
    if j < k {
      RepairStops(texts, zs, j, k - 1, next);
    }
  }

  // ----- From scan to repaired files -----

  /** The scanner's locations are where they say they are. */
  ghost predicate AreLocated(texts: Texts, found: seq<Location>) {
    forall loc :: loc in found ==>
      && IsDigits(loc.code) && loc.file in texts
      && loc.offset + |loc.code| <= |texts[loc.file]|
      && texts[loc.file][loc.offset..loc.offset + |loc.code|] == loc.code
  }

  lemma {:induction false} ZeroBegins(s: string)
    requires IsDigits(s) && ParseInt(s) == 0
    ensures s[0] == '0'
  {
    if |s| > 1 {
      ZeroBegins(s[..|s| - 1]);
    }
  }

  lemma ErrorsHaveDigits(texts: Texts, found: seq<Location>)
    requires AreLocated(texts, found)
    ensures HaveDigits(ErrorsOf(found))
  {
    var errors := ErrorsOf(found);
    forall i | 0 <= i < |errors|
      ensures IsDigits(errors[i].code)
    {
      ErrorsAreFound(found, errors[i]);
    }
  }

  /** The locations the repair rewrites: a `0` always, a zero written with more digits only as a duplicate. */
  ghost predicate IsRewritten(found: seq<Location>, loc: Location) {
    && loc in found && IsDigits(loc.code) && IsZero(loc)
    && (loc.code == ZERO || CodeCount(found, loc.code) >= 2)
  }

  lemma RewrittenIffListed(found: seq<Location>, loc: Location)
    requires HaveDigits(ErrorsOf(found))
    ensures loc in Worklist(ErrorsOf(found)) <==> IsRewritten(found, loc)
  {
    hide ErrorsOf, Worklist, ParseInt, CodeCount;
    WorklistMembers(ErrorsOf(found), loc);
    if loc in found {
      ErrorIff(found, loc);
    } else if loc in ErrorsOf(found) {
      ErrorsAreFound(found, loc);
    }
  }

  /** A zero with more than one digit that occurs once is no error and stays. */
  lemma LoneLongZeroStays(found: seq<Location>, loc: Location)
    requires HaveDigits(ErrorsOf(found)) && loc in found && IsDigits(loc.code)
    requires |loc.code| > 1 && CodeCount(found, loc.code) == 1
    ensures loc !in ErrorsOf(found) && loc !in Worklist(ErrorsOf(found))
  {
    hide ErrorsOf, Worklist, ParseInt, CodeCount;
    ErrorIff(found, loc);
    RewrittenIffListed(found, loc);
  }

  /**
   What the repair leaves behind: each file is the simultaneous substitution of new codes; the
   places edited are exactly those of the locations to rewrite; the new codes are pairwise
   distinct and above all codes found.
   */
  ghost predicate IsRepaired(texts: Texts, found: seq<Location>, next: nat, after: Texts)
    requires HaveDigits(ErrorsOf(found))
  {
    var w := Worklist(ErrorsOf(found));
    && after.Keys == texts.Keys
    && (forall f :: f in texts ==> after[f] == Subst(texts[f], EditsOf(w, |w|, next, f)))
    && (forall f, o :: o in EditsOf(w, |w|, next, f) <==> RewritesAt(found, f, o))
    && (forall f, o :: o in EditsOf(w, |w|, next, f) ==> IsFreshCode(found, EditsOf(w, |w|, next, f)[o]))
    && (forall f, o, f', o' :: o in EditsOf(w, |w|, next, f) && o' in EditsOf(w, |w|, next, f') && (f != f' || o != o')
          ==> EditsOf(w, |w|, next, f)[o] != EditsOf(w, |w|, next, f')[o'])
  }

  ghost predicate RewritesAt(found: seq<Location>, f: string, o: nat) {
    exists loc :: IsRewritten(found, loc) && loc.file == f && loc.offset == o
  }

  /** The whole repair: the zero check never fails, and the files are repaired. */
  lemma RepairIsRight(texts: Texts, found: seq<Location>, next: nat)
    requires AreLocated(texts, found) && PlacesDiffer(found)
    requires forall loc :: loc in found ==> IsDigits(loc.code) && ParseInt(loc.code) < next
    ensures HaveDigits(ErrorsOf(found))
    ensures var w := Worklist(ErrorsOf(found));
            Repair(texts, w, |w|, next).Some? && IsRepaired(texts, found, next, Repair(texts, w, |w|, next).value)
  {
    hide ErrorsOf, Worklist, Repair, Subst, EditsOf, ParseInt, IsFreshCode, Descends, PointAtZeros, HaveDigits, RewritesAt;
    ErrorsHaveDigits(texts, found);
    var w := Worklist(ErrorsOf(found));
    WorklistIsReady(texts, found);
    RepairIsSubstitution(texts, w, |w|, next);
    forall f, o
      ensures o in EditsOf(w, |w|, next, f) <==> RewritesAt(found, f, o)
    {
      EditedIffRewritten(found, next, f, o);
    }
    forall f, o | o in EditsOf(w, |w|, next, f)
      ensures IsFreshCode(found, EditsOf(w, |w|, next, f)[o])
    {
      EditIsFresh(found, w, next, f, o);
    }
    forall f, o, f', o' | o in EditsOf(w, |w|, next, f) && o' in EditsOf(w, |w|, next, f') && (f != f' || o != o')
      ensures EditsOf(w, |w|, next, f)[o] != EditsOf(w, |w|, next, f')[o']
    {
      EditsDiffer(w, next, f, o, f', o');
    }
  }

  lemma EditedIffRewritten(found: seq<Location>, next: nat, f: string, o: nat)
    requires HaveDigits(ErrorsOf(found)) && Descends(Worklist(ErrorsOf(found)))
    ensures var w := Worklist(ErrorsOf(found)); o in EditsOf(w, |w|, next, f) <==> RewritesAt(found, f, o)
  {
    hide ErrorsOf, Worklist, EditsOf, ParseInt, IsRewritten, HaveDigits;
    var w := Worklist(ErrorsOf(found));
    EditsAre(w, |w|, next, f);
    if o in EditsOf(w, |w|, next, f) {
      var j :| 0 <= j < |w| && w[j].file == f && w[j].offset == o;
      RewrittenIffListed(found, w[j]);
    }
    if RewritesAt(found, f, o) {
      var loc :| IsRewritten(found, loc) && loc.file == f && loc.offset == o;
      RewrittenIffListed(found, loc);
      var j :| 0 <= j < |w| && w[j] == loc;
    }
  }

  lemma EditsDiffer(w: seq<Location>, next: nat, f: string, o: nat, f': string, o': nat)
    requires Descends(w) && o in EditsOf(w, |w|, next, f) && o' in EditsOf(w, |w|, next, f') && (f != f' || o != o')
    ensures EditsOf(w, |w|, next, f)[o] != EditsOf(w, |w|, next, f')[o']
  {
    hide EditsOf;
    EditsAre(w, |w|, next, f);
    EditsAre(w, |w|, next, f');
    var i :| 0 <= i < |w| && w[i].file == f && w[i].offset == o;
    var j :| 0 <= j < |w| && w[j].file == f' && w[j].offset == o';
    NewCodesDiffer(w, next, i, j);
  }

  lemma EditIsFresh(found: seq<Location>, w: seq<Location>, next: nat, f: string, o: nat)
    requires Descends(w) && o in EditsOf(w, |w|, next, f)
    requires forall loc :: loc in found ==> IsDigits(loc.code) && ParseInt(loc.code) < next
    ensures IsFreshCode(found, EditsOf(w, |w|, next, f)[o])
  {
    hide EditsOf, ParseInt, FormatInt;
    EditsAre(w, |w|, next, f);
    var j :| 0 <= j < |w| && w[j].file == f && w[j].offset == o;
    ParseFormat(next + j);
  }

  /** A number above all codes found. */
  ghost predicate IsFreshCode(found: seq<Location>, code: string) {
    IsDigits(code) && forall loc :: loc in found && IsDigits(loc.code) ==> ParseInt(loc.code) < ParseInt(code)
  }

  lemma ZeroParses()
    ensures IsDigits(ZERO) && ParseInt(ZERO) == 0
  {
  }

  lemma WorklistIsReady(texts: Texts, found: seq<Location>)
    requires AreLocated(texts, found) && PlacesDiffer(found) && HaveDigits(ErrorsOf(found))
    ensures Descends(Worklist(ErrorsOf(found))) && PointAtZeros(texts, Worklist(ErrorsOf(found)))
  {
    hide ErrorsOf, Worklist, Zeros, ParseInt;
    var errors := ErrorsOf(found);
    var zs := Zeros(errors);
    forall z | z in zs
      ensures z in found
    {
      ErrorsAreFound(found, z);
    }
    WorklistDescends(errors);
    var w := Worklist(errors);
    forall i | 0 <= i < |w|
      ensures w[i].file in texts && w[i].offset < |texts[w[i].file]| && texts[w[i].file][w[i].offset] == '0'
    {
      WorklistMembers(errors, w[i]);
      ErrorsAreFound(found, w[i]);
      ZeroBegins(w[i].code);
      var t, o, c := texts[w[i].file], w[i].offset, w[i].code;
      assert t[o] == t[o..o + |c|][0];
    }
  }

  /** Different repairs write different codes. */
  lemma NewCodesDiffer(zs: seq<Location>, next: nat, i: nat, j: nat)
    requires i < |zs| && j < |zs| && i != j && Descends(zs)
    ensures zs[i].offset in EditsOf(zs, |zs|, next, zs[i].file) && zs[j].offset in EditsOf(zs, |zs|, next, zs[j].file)
    ensures EditsOf(zs, |zs|, next, zs[i].file)[zs[i].offset] != EditsOf(zs, |zs|, next, zs[j].file)[zs[j].offset]
  {
    hide EditsOf, FormatInt, ParseInt;
    EditsAre(zs, |zs|, next, zs[i].file);
    EditsAre(zs, |zs|, next, zs[j].file);
    ParseFormat(next + i);
    ParseFormat(next + j);
  }

  // ----- Reading the repaired codes back -----

  /** The digits from `i` on, as the scanner's pattern takes them. */
  function DigitRun(text: string, i: nat): string
    requires i <= |text|
    decreases |text| - i
  {
    if i < |text| && IsDigit(text[i]) then [text[i]] + DigitRun(text, i + 1) else []
  }

  lemma {:induction false} DigitRunIs(text: string, i: nat, s: string)
    requires i + |s| <= |text| && forall k :: 0 <= k < |s| ==> IsDigit(s[k]) && text[i + k] == s[k]
    requires i + |s| == |text| || !IsDigit(text[i + |s|])
    ensures DigitRun(text, i) == s
    decreases |s|
  {
    if s != [] {
      assert text[i + 0] == s[0];
      var rest := s[1..];
      forall k | 0 <= k < |rest|
        ensures IsDigit(rest[k]) && text[i + 1 + k] == rest[k]
      {
        assert text[i + (k + 1)] == s[k + 1];
      }
      DigitRunIs(text, i + 1, rest);
    }
  }

  /** Edits further on do not change what comes before. */
  lemma {:induction false} SubstPrefix(text: string, m: Edits, a: nat)
    requires a <= |text|
    ensures Subst(text[..a], m) <= Subst(text, m)
    decreases |text|
  {
    if a == |text| {
      assert text[..a] == text;
    } else {
      SubstPrefix(text[..|text| - 1], m, a);
      assert text[..|text| - 1][..a] == text[..a];
    }
  }

  lemma SubstNext(text: string, m: Edits, a: nat)
    requires a < |text|
    ensures Subst(text[..a + 1], m) == Subst(text[..a], m) + if a in m then m[a] else [text[a]]
  {
    assert text[..a + 1][..a] == text[..a];
  }

  lemma {:induction false} SubstStretch(text: string, m: Edits, a: nat, b: nat)
    requires a <= b <= |text| && forall i :: a <= i < b ==> i !in m
    ensures Subst(text[..b], m) == Subst(text[..a], m) + text[a..b]
    decreases b
  {
    if a < b {
      SubstStretch(text, m, a, b - 1);
      SubstNext(text, m, b - 1);
      assert text[a..b] == text[a..b - 1] + [text[b - 1]];
    } else {
      assert text[a..b] == [];
    }
  }

  /** What becomes of the code `c` at `o`, when no edit is made behind its first digit. */
  lemma SubstCode(text: string, m: Edits, o: nat, c: string)
    requires c != [] && o + |c| <= |text| && text[o..o + |c|] == c
    requires forall i :: o < i < o + |c| ==> i !in m
    ensures Subst(text[..o + |c|], m) == Subst(text[..o], m) + if o in m then m[o] + c[1..] else c
  {
    hide Subst;
    var b := o + |c|;
    SubstNext(text, m, o);
    SubstStretch(text, m, o + 1, b);
    assert text[o] == text[o..b][0] == c[0];
    assert text[o + 1..b] == c[1..] && [c[0]] + c[1..] == c;
  }

  /** Codes are whole runs of digits, and edits are made where codes begin. */
  lemma RunAfterSubst(text: string, m: Edits, o: nat, c: string)
    requires IsDigits(c) && o + |c| <= |text| && text[o..o + |c|] == c
    requires o + |c| == |text| || !IsDigit(text[o + |c|])
    requires forall i :: i in m && i < |text| ==> IsDigit(text[i]) && (i == 0 || !IsDigit(text[i - 1]))
    requires o in m ==> IsDigits(m[o])
    ensures |Subst(text[..o], m)| <= |Subst(text, m)|
    ensures DigitRun(Subst(text, m), |Subst(text[..o], m)|) == if o in m then m[o] + c[1..] else c
  {
    hide Subst, DigitRun;
    var b := o + |c|;
    var first, run := Subst(text[..o], m), if o in m then m[o] + c[1..] else c;
    forall i | o < i < b
      ensures i !in m
    {
      assert text[i - 1] == text[o..b][i - 1 - o] == c[i - 1 - o];
    }
    SubstCode(text, m, o, c);
    SubstPrefix(text, m, b);
    var after, e := Subst(text, m), |first| + |run|;
    forall k | 0 <= k < |run|
      ensures IsDigit(run[k]) && after[|first| + k] == run[k]
    {
      assert (first + run)[|first| + k] == run[k];
    }
    if b == |text| {
      assert text[..b] == text;
    } else {
      SubstNext(text, m, b);
      SubstPrefix(text, m, b + 1);
      assert after[e] == Subst(text[..b + 1], m)[e] == text[b];
    }
    DigitRunIs(after, |first|, run);
  }

  /** The scanner's locations are whole numbers of their files. */
  ghost predicate AreWhole(texts: Texts, found: seq<Location>) {
    forall loc :: loc in found ==>
      && loc.file in texts && loc.offset < |texts[loc.file]|
      && (loc.offset > 0 ==> !IsDigit(texts[loc.file][loc.offset - 1]))
      && (loc.offset + |loc.code| < |texts[loc.file]| ==> !IsDigit(texts[loc.file][loc.offset + |loc.code|]))
  }

  /**
   Reading the repaired file at the place of a location found: a location to rewrite reads as its
   new code followed by all digits of the old code but the first, every other one as before.
   */
  lemma RepairedCodeReads(texts: Texts, found: seq<Location>, next: nat, loc: Location)
    requires AreLocated(texts, found) && PlacesDiffer(found) && AreWhole(texts, found) && loc in found
    requires forall x :: x in found ==> IsDigits(x.code) && ParseInt(x.code) < next
    ensures HaveDigits(ErrorsOf(found))
    ensures var w := Worklist(ErrorsOf(found));
            var m := EditsOf(w, |w|, next, loc.file);
            var place := |Subst(texts[loc.file][..loc.offset], m)|;
            && Repair(texts, w, |w|, next).Some? && loc.file in Repair(texts, w, |w|, next).value
            && var after := Repair(texts, w, |w|, next).value[loc.file];
            && place <= |after|
            && (loc.offset in m <==> RewritesAt(found, loc.file, loc.offset))
            && DigitRun(after, place) == if loc.offset in m then m[loc.offset] + loc.code[1..] else loc.code
  {
    hide ErrorsOf, Worklist, EditsOf, Subst, DigitRun, ParseInt, CodeCount, RewritesAt, HaveDigits, IsDigits, Repair,
      PlacesDiffer, IsFreshCode;
    RepairedFile(texts, found, next, loc.file);
    var w := Worklist(ErrorsOf(found));
    var text, m := texts[loc.file], EditsOf(w, |w|, next, loc.file);
    forall i | i in m && i < |text|
      ensures IsDigit(text[i]) && (i == 0 || !IsDigit(text[i - 1]))
    {
      CodeBegins(texts, found, loc.file, i);
    }
    RunAfterSubst(text, m, loc.offset, loc.code);
  }

  lemma RepairedFile(texts: Texts, found: seq<Location>, next: nat, f: string)
    requires AreLocated(texts, found) && PlacesDiffer(found) && f in texts
    requires forall x :: x in found ==> IsDigits(x.code) && ParseInt(x.code) < next
    ensures HaveDigits(ErrorsOf(found))
    ensures var w := Worklist(ErrorsOf(found));
            var m := EditsOf(w, |w|, next, f);
            && Repair(texts, w, |w|, next).Some? && f in Repair(texts, w, |w|, next).value
            && Repair(texts, w, |w|, next).value[f] == Subst(texts[f], m)
            && (forall o :: o in m <==> RewritesAt(found, f, o))
            && (forall o :: o in m ==> IsFreshCode(found, m[o]) && IsDigits(m[o]))
  {
    hide ErrorsOf, Worklist, EditsOf, Subst, ParseInt, RewritesAt, HaveDigits, IsDigits, Repair, AreLocated, PlacesDiffer;
    RepairIsRight(texts, found, next);
  }

  /** A place that is rewritten is the first digit of a number. */
  lemma CodeBegins(texts: Texts, found: seq<Location>, f: string, i: nat)
    requires AreLocated(texts, found) && AreWhole(texts, found) && RewritesAt(found, f, i)
    ensures f in texts && i < |texts[f]| && IsDigit(texts[f][i]) && (i == 0 || !IsDigit(texts[f][i - 1]))
  {
    hide ParseInt, CodeCount;
    var z :| IsRewritten(found, z) && z.file == f && z.offset == i;
    assert texts[f][i] == texts[f][i..i + |z.code|][0];
  }

  /** In the repaired file a rewritten code reads back as the new number exactly when it had a single digit. */
  lemma ReadsBackIffOneDigit(texts: Texts, found: seq<Location>, next: nat, loc: Location)
    requires AreLocated(texts, found) && PlacesDiffer(found) && AreWhole(texts, found) && IsRewritten(found, loc)
    requires forall x :: x in found ==> IsDigits(x.code) && ParseInt(x.code) < next
    ensures HaveDigits(ErrorsOf(found))
    ensures var w := Worklist(ErrorsOf(found));
            var m := EditsOf(w, |w|, next, loc.file);
            var place := |Subst(texts[loc.file][..loc.offset], m)|;
            && Repair(texts, w, |w|, next).Some? && loc.file in Repair(texts, w, |w|, next).value
            && var after := Repair(texts, w, |w|, next).value[loc.file];
            && loc.offset in m && IsFreshCode(found, m[loc.offset]) && place <= |after|
            && IsDigits(DigitRun(after, place))
            && (ParseInt(DigitRun(after, place)) == ParseInt(m[loc.offset]) <==> |loc.code| == 1)
  {
    hide ErrorsOf, Worklist, EditsOf, Subst, DigitRun, ParseInt, CodeCount, HaveDigits, IsDigits, IsFreshCode, AreLocated,
      AreWhole, Repair, PlacesDiffer;
    assert RewritesAt(found, loc.file, loc.offset);
    RepairedCodeReads(texts, found, next, loc);
    FileIsThere(texts, found, loc);
    RepairedFile(texts, found, next, loc.file);
    var w := Worklist(ErrorsOf(found));
    LongerReadsHigher(found, loc, EditsOf(w, |w|, next, loc.file)[loc.offset]);
  }

  lemma FileIsThere(texts: Texts, found: seq<Location>, loc: Location)
    requires AreLocated(texts, found) && loc in found
    ensures loc.file in texts && loc.offset <= |texts[loc.file]|
  {
  }

  lemma LongerReadsHigher(found: seq<Location>, loc: Location, code: string)
    requires IsRewritten(found, loc) && IsFreshCode(found, code)
    ensures IsDigits(code + loc.code[1..])
    ensures ParseInt(code + loc.code[1..]) == ParseInt(code) <==> |loc.code| == 1
  {
    var rest := loc.code[1..];
    assert forall i :: 0 <= i < |rest| ==> rest[i] == loc.code[i + 1];
    if rest == [] {
      assert code + rest == code;
    } else {
      DigitsGrow(code, rest);
    }
  }

  lemma {:induction false} DigitsGrow(code: string, rest: string)
    requires IsDigits(code) && ParseInt(code) > 0 && IsDigits(rest)
    ensures ParseInt(code + rest) > ParseInt(code)
    decreases |rest|
  {
    var r := rest[..|rest| - 1];
    assert (code + rest)[..|code + rest| - 1] == code + r;
    if r == [] {
      assert code + r == code;
    } else {
      DigitsGrow(code, r);
    }
  }

  /** Two codes `00`: both are rewritten, and neither reads back as its new code. */
  lemma TwoDigitZeroKeepsOne(found: seq<Location>, texts: Texts)
    requires found == [Location("a.cpp", 1, "(00", "00"), Location("a.cpp", 5, "(00", "00")]
    requires texts == map["a.cpp" := "(00)(00)"]
    ensures AreLocated(texts, found) && AreWhole(texts, found) && PlacesDiffer(found) && HaveDigits(ErrorsOf(found))
    ensures var w := Worklist(ErrorsOf(found));
            w == [found[1], found[0]] && Repair(texts, w, |w|, 1) == Some(map["a.cpp" := "(20)(10)"])
  {
    hide Worklist, ErrorsOf, Repair;
    TwoDigitZeroErrors(found);
    var t := texts["a.cpp"];
    assert t[1..3] == "00" && t[5..7] == "00";
    RepairTwo(texts, found[1], found[0]);
  }

  lemma RepairTwo(texts: Texts, y: Location, x: Location)
    requires texts == map["a.cpp" := "(00)(00)"]
    requires x.file == y.file == "a.cpp" && x.offset == 1 && y.offset == 5
    ensures Repair(texts, [y, x], 2, 1) == Some(map["a.cpp" := "(20)(10)"])
  {
    var u, v := map["a.cpp" := "(00)(10)"], map["a.cpp" := "(20)(10)"];
    assert FormatInt(1) == "1" && FormatInt(2) == "2";
    assert RepairOne(texts, y, 1) == Some(u) by {
      var t := "(00)(00)";
      assert t[..5] + "1" + t[6..] == "(00)(10)";
      assert texts["a.cpp" := "(00)(10)"] == u;
    }
    assert RepairOne(u, x, 2) == Some(v) by {
      var t := "(00)(10)";
      assert t[..1] + "2" + t[2..] == "(20)(10)";
      assert u["a.cpp" := "(20)(10)"] == v;
    }
    hide RepairOne;
    assert Repair(texts, [y, x], 0, 1) == Some(texts);
    assert Repair(texts, [y, x], 1, 1) == Some(u);
  }

  lemma TwoDigitZeroErrors(found: seq<Location>)
    requires found == [Location("a.cpp", 1, "(00", "00"), Location("a.cpp", 5, "(00", "00")]
    ensures HaveDigits(ErrorsOf(found)) && Worklist(ErrorsOf(found)) == [found[1], found[0]]
  {
    hide ErrorsOf, Worklist, Zeros;
    TwoAlike(found[0], found[1]);
    assert found == [found[0], found[1]];
    TwoZerosParse();
    TwoZeros(found[0], found[1]);
    WorklistOfTwo(found);
  }

  lemma TwoZerosParse()
    ensures IsDigits("00") && ParseInt("00") == 0
  {
    assert "00"[..1] == "0";
  }

  /** Two locations with the same code, other than `0`, are both errors. */
  lemma TwoAlike(x: Location, y: Location)
    requires x.code == y.code != ZERO
    ensures ErrorsOf([x, y]) == [x, y]
  {
    var one, two := [x], [x, y];
    assert two[..1] == one && one[..0] == [];
    assert CodeCount([], x.code) == 0 && CodeCount([], ZERO) == 0;
    assert CodeCount(one, x.code) == 1 && CodeCount(one, ZERO) == 0 && CodeCount(two, ZERO) == 0;
    assert FirstWith(one, x.code) == x;
    assert DuplicateErrors([]) == [] && DuplicateErrors(one) == [];
    assert DuplicateErrors(two) == [] + [x, y];
  }

  lemma TwoZeros(x: Location, y: Location)
    requires IsDigits(x.code) && IsDigits(y.code) && IsZero(x) && IsZero(y) && x != y
    ensures Zeros([x, y]) == [x, y]
  {
    hide ParseInt;
    var one, two := [x], [x, y];
    assert two[..1] == one && one[..0] == [];
    assert Zeros(one) == [] + [x];
  }

  lemma WorklistOfTwo(found: seq<Location>)
    requires HaveDigits(found) && |found| == 2 && Zeros(found) == found
    requires found[0].file == found[1].file && found[0].offset < found[1].offset
    ensures Worklist(found) == [found[1], found[0]]
  {
    hide Worklist, Zeros;
    var w := Worklist(found);
    WorklistLength(found);
    WorklistDescends(found);
    WorklistMembers(found, w[0]);
    WorklistMembers(found, w[1]);
    assert w[0].offset > w[1].offset;
  }

  /**
    * Reading the codes, choosing the next one and repairing, as the option `--fix` does. With fewer than two codes
    * found, choosing the next one is the type error, and the files stay as they were.
    */
  method Fix(codes: Codes, files: SourceFiles, found: seq<Location>) returns (next: Option<nat>)
    requires codes.codes == []
    requires AreLocated(files.texts, found) && PlacesDiffer(found)
    modifies codes, files
    ensures next.None? <==> |found| < 2
    ensures next.None? ==> files.texts == old(files.texts)
    ensures next.Some? ==> forall loc :: loc in found ==> IsDigits(loc.code) && ParseInt(loc.code) < next.value
    ensures HaveDigits(ErrorsOf(found))
    ensures next.Some? ==> IsRepaired(old(files.texts), found, next.value, files.texts)
  {
    hide ErrorsOf, Worklist, Repair, ParseInt, IsRepaired;
    ErrorsHaveDigits(files.texts, found);
    var errors := codes.ReadErrorCodes(found);
    assert codes.codes == found;
    var n := codes.GetNextCode(found);
    if n.None? {
      return None;
    }
    assert found[0] in found;
    RepairIsRight(files.texts, found, n.value);
    var ok := files.ReplaceBadCodes(errors, n.value);
    next := Some(n.value);
  }
}
