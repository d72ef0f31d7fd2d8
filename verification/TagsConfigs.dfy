/**
 Tag configurations (buildscripts/ciconfig/tags.py) and the changelog kept beside them
 (buildscripts/update_test_lifecycle.py): on values, then as the objects updated in place.
 */
module TagsConfigs {
  import opened Options
  import opened Sequences
  import opened Sorting

  type Tags = seq<string>

  /** A value read from the file may be null. */
  type Patterns = map<string, Option<Tags>>
  type Conf = map<string, Option<Patterns>>

  type TagOrder = (string, string) -> bool

  function GetPatterns(conf: Conf, kind: string): Patterns {
    if kind in conf && conf[kind].Some? then conf[kind].value else map[]
  }

  function TagsIn(patterns: Patterns, test: string): Tags {
    if test in patterns && patterns[test].Some? then patterns[test].value else []
  }

  function GetTags(conf: Conf, kind: string, test: string): Tags {
    TagsIn(GetPatterns(conf, kind), test)
  }

  predicate Has(conf: Conf, kind: string, test: string, tag: string) {
    tag in GetTags(conf, kind, test)
  }

  function SortTags(tags: Tags, le: TagOrder): Tags {
    Sort(tags, (t: string) => t, le)
  }

  function AddTag(conf: Conf, le: TagOrder, kind: string, test: string, tag: string): Conf {
    if Has(conf, kind, test, tag) then conf
    else
      var tags := SortTags(GetTags(conf, kind, test) + [tag], le);
      conf[kind := Some(GetPatterns(conf, kind)[test := Some(tags)])]
  }

  /** The list without every occurrence of `tag`. */
  function Dropped(tags: Tags, tag: string): (r: Tags)
    ensures forall x :: x in r <==> x in tags && x != tag
  {
    if tags == [] then []
    else
      var rest := Dropped(tags[..|tags| - 1], tag);
      var last := tags[|tags| - 1];
      assert tags == tags[..|tags| - 1] + [last];
      if last == tag then rest else rest + [last]
  }

  function RemoveTag(conf: Conf, kind: string, test: string, tag: string): Conf {
    if !Has(conf, kind, test, tag) then conf
    else
      var patterns, tags := GetPatterns(conf, kind), Dropped(GetTags(conf, kind, test), tag);
      conf[kind := Some(if tags == [] then patterns - {test} else patterns[test := Some(tags)])]
  }

  function RemoveTestPattern(conf: Conf, kind: string, test: string): Conf {
    if test !in GetPatterns(conf, kind) then conf
    else conf[kind := Some(GetPatterns(conf, kind) - {test})]
  }

  lemma SortTagsMember(tags: Tags, le: TagOrder, x: string)
    ensures x in SortTags(tags, le) <==> x in tags
  {
    SortKeeps(tags, (s: string) => s, le);
    MultisetMember(tags, x);
    MultisetMember(SortTags(tags, le), x);
  }

  lemma AddTagHas(conf: Conf, le: TagOrder, kind: string, test: string, tag: string, k: string, t: string, x: string)
    ensures Has(AddTag(conf, le, kind, test, tag), k, t, x) <==>
            Has(conf, k, t, x) || (k == kind && t == test && x == tag)
  {
    hide SortTags;
    SortTagsMember(GetTags(conf, kind, test) + [tag], le, x);
  }

  lemma RemoveTagHas(conf: Conf, kind: string, test: string, tag: string, k: string, t: string, x: string)
    ensures Has(RemoveTag(conf, kind, test, tag), k, t, x) <==>
            Has(conf, k, t, x) && !(k == kind && t == test && x == tag)
  {
  }

  // ----- The changelog -----

  type TagLog = map<string, real>
  type TestLog = map<string, TagLog>
  type Log = map<string, TestLog>

  predicate InLog(log: Log, kind: string, test: string, tag: string) {
    kind in log && test in log[kind] && tag in log[kind][test]
  }

  function LogPut(log: Log, kind: string, test: string, tag: string, rate: real): Log {
    var tests := if kind in log then log[kind] else map[];
    var tags := if test in tests then tests[test] else map[];
    log[kind := tests[test := tags[tag := rate]]]
  }

  /** Remove a tag, and the dictionaries that become empty by that. */
  function LogCancel(log: Log, kind: string, test: string, tag: string): Log
    requires InLog(log, kind, test, tag)
  {
    var tags := log[kind][test] - {tag};
    if tags != map[] then log[kind := log[kind][test := tags]]
    else
      var tests := log[kind] - {test};
      if tests != map[] then log[kind := tests] else log - {kind}
  }

  /** No dictionary inside the log is empty. */
  ghost predicate HasNoEmpty(log: Log) {
    forall k :: k in log ==> log[k] != map[] && forall t :: t in log[k] ==> log[k][t] != map[]
  }

  lemma LogPutIn(log: Log, kind: string, test: string, tag: string, rate: real, k: string, t: string, x: string)
    ensures InLog(LogPut(log, kind, test, tag, rate), k, t, x) <==>
            InLog(log, k, t, x) || (k == kind && t == test && x == tag)
  {
  }

  lemma LogPutNoEmpty(log: Log, kind: string, test: string, tag: string, rate: real)
    requires HasNoEmpty(log)
    ensures HasNoEmpty(LogPut(log, kind, test, tag, rate))
  {
    var tests := if kind in log then log[kind] else map[];
    var tags := if test in tests then tests[test] else map[];
    assert tag in tags[tag := rate];
    assert test in tests[test := tags[tag := rate]];
  }

  lemma LogCancelIn(log: Log, kind: string, test: string, tag: string, k: string, t: string, x: string)
    requires InLog(log, kind, test, tag)
    ensures InLog(LogCancel(log, kind, test, tag), k, t, x) <==>
            InLog(log, k, t, x) && !(k == kind && t == test && x == tag)
  {
    if k == kind && t == test && InLog(log, k, t, x) && x != tag {
      assert x in log[kind][test] - {tag};
    }
    if k == kind && t != test && InLog(log, k, t, x) {
      assert t in log[kind] - {test};
    }
  }

  lemma LogCancelNoEmpty(log: Log, kind: string, test: string, tag: string)
    requires InLog(log, kind, test, tag) && HasNoEmpty(log)
    ensures HasNoEmpty(LogCancel(log, kind, test, tag))
  {
    var r := LogCancel(log, kind, test, tag);
    forall k | k in r
      ensures r[k] != map[] && forall t :: t in r[k] ==> r[k][t] != map[]
    {
      if k == kind && log[kind][test] - {tag} != map[] {
        assert test in r[k];
      }
    }
  }

  datatype Change = Change(conf: Conf, added: Log, removed: Log)

  datatype Operation = Add(kind: string, test: string, tag: string, rate: real)
                     | Remove(kind: string, test: string, tag: string, rate: real)

  function Apply(c: Change, le: TagOrder, op: Operation): Change {
    match op
    case Add(kind, test, tag, rate) =>
      if Has(c.conf, kind, test, tag) then c
      else
        var conf := AddTag(c.conf, le, kind, test, tag);
        if InLog(c.removed, kind, test, tag) then Change(conf, c.added, LogCancel(c.removed, kind, test, tag))
        else Change(conf, LogPut(c.added, kind, test, tag, rate), c.removed)
    case Remove(kind, test, tag, rate) =>
      if !Has(c.conf, kind, test, tag) then c
      else
        var conf := RemoveTag(c.conf, kind, test, tag);
        if InLog(c.added, kind, test, tag) then Change(conf, LogCancel(c.added, kind, test, tag), c.removed)
        else Change(conf, c.added, LogPut(c.removed, kind, test, tag, rate))
  }

  function ApplyAll(conf: Conf, le: TagOrder, ops: seq<Operation>): Change {
    if ops == [] then Change(conf, map[], map[])
    else Apply(ApplyAll(conf, le, ops[..|ops| - 1]), le, ops[|ops| - 1])
  }

  /** `added` is what is there now and was not there first, `removed` the converse. */
  ghost predicate LogsDifference(initial: Conf, c: Change) {
    && HasNoEmpty(c.added) && HasNoEmpty(c.removed)
    && (forall k, t, x :: InLog(c.added, k, t, x) <==> Has(c.conf, k, t, x) && !Has(initial, k, t, x))
    && (forall k, t, x :: InLog(c.removed, k, t, x) <==> Has(initial, k, t, x) && !Has(c.conf, k, t, x))
  }

  lemma ApplyAddLogs(initial: Conf, c: Change, le: TagOrder, kind: string, test: string, tag: string, rate: real)
    requires LogsDifference(initial, c)
    ensures LogsDifference(initial, Apply(c, le, Add(kind, test, tag, rate)))
  {
    hide Has, AddTag, LogPut, LogCancel, InLog, HasNoEmpty;
    var op := Add(kind, test, tag, rate);
    if !Has(c.conf, kind, test, tag) {
      var r := Apply(c, le, op);
      forall k, t, x
        ensures InLog(r.added, k, t, x) <==> Has(r.conf, k, t, x) && !Has(initial, k, t, x)
        ensures InLog(r.removed, k, t, x) <==> Has(initial, k, t, x) && !Has(r.conf, k, t, x)
      {
        AddTagHas(c.conf, le, kind, test, tag, k, t, x);
        if InLog(c.removed, kind, test, tag) {
          LogCancelIn(c.removed, kind, test, tag, k, t, x);
        } else {
          LogPutIn(c.added, kind, test, tag, rate, k, t, x);
        }
      }
      if InLog(c.removed, kind, test, tag) {
        LogCancelNoEmpty(c.removed, kind, test, tag);
      } else {
        LogPutNoEmpty(c.added, kind, test, tag, rate);
      }
    }
  }

  lemma ApplyRemoveLogs(initial: Conf, c: Change, le: TagOrder, kind: string, test: string, tag: string, rate: real)
    requires LogsDifference(initial, c)
    ensures LogsDifference(initial, Apply(c, le, Remove(kind, test, tag, rate)))
  {
    hide Has, RemoveTag, LogPut, LogCancel, InLog, HasNoEmpty;
    var op := Remove(kind, test, tag, rate);
    if Has(c.conf, kind, test, tag) {
      var r := Apply(c, le, op);
      forall k, t, x
        ensures InLog(r.added, k, t, x) <==> Has(r.conf, k, t, x) && !Has(initial, k, t, x)
        ensures InLog(r.removed, k, t, x) <==> Has(initial, k, t, x) && !Has(r.conf, k, t, x)
      {
        RemoveTagHas(c.conf, kind, test, tag, k, t, x);
        if InLog(c.added, kind, test, tag) {
          LogCancelIn(c.added, kind, test, tag, k, t, x);
        } else {
          LogPutIn(c.removed, kind, test, tag, rate, k, t, x);
        }
      }
      if InLog(c.added, kind, test, tag) {
        LogCancelNoEmpty(c.added, kind, test, tag);
      } else {
        LogPutNoEmpty(c.removed, kind, test, tag, rate);
      }
    }
  }

  /** Over every run of additions and removals the two logs are exactly the difference made. */
  lemma {:induction false} LogsAreTheDifference(initial: Conf, le: TagOrder, ops: seq<Operation>)
    ensures LogsDifference(initial, ApplyAll(initial, le, ops))
  {
    if ops != [] {
      hide LogsDifference, Apply;
      var c, op := ApplyAll(initial, le, ops[..|ops| - 1]), ops[|ops| - 1];
      LogsAreTheDifference(initial, le, ops[..|ops| - 1]);
      match op
      case Add(kind, test, tag, rate) => ApplyAddLogs(initial, c, le, kind, test, tag, rate);
      case Remove(kind, test, tag, rate) => ApplyRemoveLogs(initial, c, le, kind, test, tag, rate);
    }
  }

  // ----- The rates in the changelog -----

  /** The failure rate stored for a tag. */
  function Rate(log: Log, kind: string, test: string, tag: string): Option<real> {
    if InLog(log, kind, test, tag) then Some(log[kind][test][tag]) else None
  }

  lemma LogPutRate(log: Log, kind: string, test: string, tag: string, rate: real, k: string, t: string, x: string)
    ensures Rate(LogPut(log, kind, test, tag, rate), k, t, x) ==
            if k == kind && t == test && x == tag then Some(rate) else Rate(log, k, t, x)
  {
  }

  lemma LogCancelRate(log: Log, kind: string, test: string, tag: string, k: string, t: string, x: string)
    requires InLog(log, kind, test, tag)
    ensures Rate(LogCancel(log, kind, test, tag), k, t, x) ==
            if k == kind && t == test && x == tag then None else Rate(log, k, t, x)
  {
    LogCancelIn(log, kind, test, tag, k, t, x);
  }

  /** Whether a test has a tag, and the rates stored for it. */
  datatype TagState = TagState(tagged: bool, added: Option<real>, removed: Option<real>)

  function StateOf(c: Change, kind: string, test: string, tag: string): TagState {
    TagState(Has(c.conf, kind, test, tag), Rate(c.added, kind, test, tag), Rate(c.removed, kind, test, tag))
  }

  /** An addition at the given rate: nothing if the tag is there; it cancels a removal, or is stored with its rate. */
  function Plus(s: TagState, rate: real): TagState {
    if s.tagged then s
    else if s.removed.Some? then TagState(true, s.added, None)
    else TagState(true, Some(rate), None)
  }

  /** A removal at the given rate. */
  function Minus(s: TagState, rate: real): TagState {
    if !s.tagged then s
    else if s.added.Some? then TagState(false, None, s.removed)
    else TagState(false, None, Some(rate))
  }

  predicate IsAbout(op: Operation, kind: string, test: string, tag: string) {
    op.kind == kind && op.test == test && op.tag == tag
  }

  /** An operation changes the state of its own tag only. */
  lemma ApplyState(c: Change, le: TagOrder, op: Operation, k: string, t: string, x: string)
    ensures var s := StateOf(c, k, t, x);
            StateOf(Apply(c, le, op), k, t, x) ==
            if !IsAbout(op, k, t, x) then s else if op.Add? then Plus(s, op.rate) else Minus(s, op.rate)
  {
    hide Has, AddTag, RemoveTag, LogPut, LogCancel;
    match op
    case Add(kind, test, tag, rate) =>
      AddTagHas(c.conf, le, kind, test, tag, k, t, x);
      LogPutRate(c.added, kind, test, tag, rate, k, t, x);
      if InLog(c.removed, kind, test, tag) {
        LogCancelRate(c.removed, kind, test, tag, k, t, x);
      }
    case Remove(kind, test, tag, rate) =>
      RemoveTagHas(c.conf, kind, test, tag, k, t, x);
      LogPutRate(c.removed, kind, test, tag, rate, k, t, x);
      if InLog(c.added, kind, test, tag) {
        LogCancelRate(c.added, kind, test, tag, k, t, x);
      }
  }

  /** Whether the tag is there after the first `i` operations. */
  ghost predicate HasAfter(initial: Conf, le: TagOrder, ops: seq<Operation>, i: nat, k: string, t: string, x: string)
    requires i <= |ops|
  {
    Has(ApplyAll(initial, le, ops[..i]).conf, k, t, x)
  }

  /** Operation `i` is the last one that changed whether the tag is there. */
  ghost predicate IsLastChange(initial: Conf, le: TagOrder, ops: seq<Operation>, i: nat, k: string, t: string, x: string) {
    && i < |ops| && IsAbout(ops[i], k, t, x)
    && HasAfter(initial, le, ops, i, k, t, x) != HasAfter(initial, le, ops, i + 1, k, t, x)
    && forall j :: i < j <= |ops| ==> HasAfter(initial, le, ops, j, k, t, x) == HasAfter(initial, le, ops, i + 1, k, t, x)
  }

  /**
   Over every run: the rate stored for a tag, as added or as removed, is that of the operation that last
   changed whether the tag is there.
   */
  lemma {:induction false} RatesAreOfTheLastChange(initial: Conf, le: TagOrder, ops: seq<Operation>, k: string, t: string, x: string)
    returns (i: nat)
    ensures var s := StateOf(ApplyAll(initial, le, ops), k, t, x);
            s.added.Some? || s.removed.Some? ==>
              && IsLastChange(initial, le, ops, i, k, t, x)
              && (s.added.Some? ==> ops[i].Add? && s.added == Some(ops[i].rate) && s.removed.None?)
              && (s.removed.Some? ==> ops[i].Remove? && s.removed == Some(ops[i].rate) && s.added.None?)
    decreases |ops|
  {
    i := 0;
    if ops != [] {
      hide Apply, Has, Rate, IsLastChange;
      var r, op := ops[..|ops| - 1], ops[|ops| - 1];
      var c := ApplyAll(initial, le, r);
      i := RatesAreOfTheLastChange(initial, le, r, k, t, x);
      ApplyState(c, le, op, k, t, x);
      var s, s' := StateOf(c, k, t, x), StateOf(ApplyAll(initial, le, ops), k, t, x);
      LogStates(initial, le, r, k, t, x);
      if s.tagged != s'.tagged {
        i := |ops| - 1;
        ChangesLast(initial, le, ops, k, t, x);
      } else if s.added.Some? || s.removed.Some? {
        ChangeStays(initial, le, ops, i, k, t, x);
      }
    } else {
      NothingStored(k, t, x);
    }
  }

  lemma NothingStored(k: string, t: string, x: string)
    ensures Rate(map[], k, t, x) == None
  {
  }

  /** A tag is stored as added only if it is there now and was not first, as removed only the other way round. */
  lemma LogStates(initial: Conf, le: TagOrder, ops: seq<Operation>, k: string, t: string, x: string)
    ensures var s := StateOf(ApplyAll(initial, le, ops), k, t, x);
            && (s.added.Some? <==> s.tagged && !Has(initial, k, t, x))
            && (s.removed.Some? <==> !s.tagged && Has(initial, k, t, x))
  {
    hide ApplyAll, Has, HasNoEmpty;
    LogsAreTheDifference(initial, le, ops);
    var c := ApplyAll(initial, le, ops);
    assert InLog(c.added, k, t, x) <==> Has(c.conf, k, t, x) && !Has(initial, k, t, x);
    assert InLog(c.removed, k, t, x) <==> Has(initial, k, t, x) && !Has(c.conf, k, t, x);
  }

  lemma ChangesLast(initial: Conf, le: TagOrder, ops: seq<Operation>, k: string, t: string, x: string)
    requires ops != [] && IsAbout(ops[|ops| - 1], k, t, x)
    requires Has(ApplyAll(initial, le, ops[..|ops| - 1]).conf, k, t, x) != Has(ApplyAll(initial, le, ops).conf, k, t, x)
    ensures IsLastChange(initial, le, ops, |ops| - 1, k, t, x)
  {
    hide ApplyAll, Has;
    assert ops[..|ops|] == ops;
  }

  lemma ChangeStays(initial: Conf, le: TagOrder, ops: seq<Operation>, i: nat, k: string, t: string, x: string)
    requires ops != [] && IsLastChange(initial, le, ops[..|ops| - 1], i, k, t, x)
    requires Has(ApplyAll(initial, le, ops[..|ops| - 1]).conf, k, t, x) == Has(ApplyAll(initial, le, ops).conf, k, t, x)
    ensures IsLastChange(initial, le, ops, i, k, t, x) && i < |ops| - 1
  {
    hide ApplyAll, Has, HasAfter;
    var r := ops[..|ops| - 1];
    assert |r| == |ops| - 1 && r[i] == ops[i];
    forall j: nat | j <= |r|
      ensures HasAfter(initial, le, ops, j, k, t, x) == HasAfter(initial, le, r, j, k, t, x)
    {
      AfterPrefix(initial, le, ops, j, k, t, x);
    }
    AfterAll(initial, le, ops, k, t, x);
    AfterAll(initial, le, r, k, t, x);
  }

  lemma AfterPrefix(initial: Conf, le: TagOrder, ops: seq<Operation>, j: nat, k: string, t: string, x: string)
    requires j < |ops|
    ensures HasAfter(initial, le, ops, j, k, t, x) == HasAfter(initial, le, ops[..|ops| - 1], j, k, t, x)
  {
    assert ops[..|ops| - 1][..j] == ops[..j];
  }

  lemma AfterAll(initial: Conf, le: TagOrder, ops: seq<Operation>, k: string, t: string, x: string)
    ensures HasAfter(initial, le, ops, |ops|, k, t, x) == Has(ApplyAll(initial, le, ops).conf, k, t, x)
  {
    assert ops[..|ops|] == ops;
  }

  // ----- Canonical configurations -----

  ghost predicate SortedTags(s: Tags, le: TagOrder) {
    SortedBy(s, (t: string) => t, le)
  }

  /** A tag list as the tools write it: not empty, sorted, nothing twice. */
  ghost predicate IsCanonicalList(s: Tags, le: TagOrder) {
    s != [] && NoDuplicates(s) && SortedTags(s, le)
  }

  ghost predicate AreCanonical(p: Patterns, le: TagOrder) {
    forall t :: t in p ==> p[t].Some? && IsCanonicalList(p[t].value, le)
  }

  ghost predicate IsCanonical(conf: Conf, le: TagOrder) {
    forall k :: k in conf ==> conf[k].Some? && AreCanonical(conf[k].value, le)
  }

  /** Sorted lists without duplicates are equal when they have the same members. */
  lemma CanonicalListUnique(a: Tags, b: Tags, le: TagOrder)
    requires TotalOrder(le) && NoDuplicates(a) && NoDuplicates(b) && SortedTags(a, le) && SortedTags(b, le)
    requires forall x :: x in a <==> x in b
    ensures a == b
  {
    hide TotalOrder, SortedBy, NoDuplicates;
    forall x
      ensures multiset(a)[x] == multiset(b)[x]
    {
      DistinctMultiset(a, x);
      DistinctMultiset(b, x);
    }
    assert multiset(a) == multiset(b);
    SortedUnique(a, b, (t: string) => t, le);
  }

  lemma SortTagsCanonical(tags: Tags, tag: string, le: TagOrder)
    requires TotalOrder(le) && NoDuplicates(tags) && tag !in tags
    ensures IsCanonicalList(SortTags(tags + [tag], le), le)
  {
    var key := (t: string) => t;
    var s := tags + [tag];
    SortSorts(s, key, le);
    SortKeeps(s, key, le);
    hide TotalOrder, SortedBy, Sort;
    assert NoDuplicates(s);
    DistinctPermutation(s, SortTags(s, le));
  }

  lemma {:induction false} DroppedCanonical(tags: Tags, tag: string, le: TagOrder)
    requires NoDuplicates(tags) && SortedTags(tags, le)
    ensures NoDuplicates(Dropped(tags, tag)) && SortedTags(Dropped(tags, tag), le)
  {
    if tags != [] {
      var r, last := tags[..|tags| - 1], tags[|tags| - 1];
      DroppedCanonical(r, tag, le);
      var d := Dropped(r, tag);
      forall i | 0 <= i < |d|
        ensures d[i] != last && le(d[i], last)
      {
        assert d[i] in r;
        var j :| 0 <= j < |r| && r[j] == d[i];
        assert tags[j] == d[i];
      }
    }
  }

  lemma GetTagsCanonical(conf: Conf, le: TagOrder, kind: string, test: string)
    requires IsCanonical(conf, le)
    ensures AreCanonical(GetPatterns(conf, kind), le)
    ensures NoDuplicates(GetTags(conf, kind, test)) && SortedTags(GetTags(conf, kind, test), le)
  {
  }

  lemma AddTagCanonical(conf: Conf, le: TagOrder, kind: string, test: string, tag: string)
    requires TotalOrder(le) && IsCanonical(conf, le)
    ensures IsCanonical(AddTag(conf, le, kind, test, tag), le)
  {
    hide IsCanonicalList, SortTags, NoDuplicates, SortedTags;
    GetTagsCanonical(conf, le, kind, test);
    if !Has(conf, kind, test, tag) {
      SortTagsCanonical(GetTags(conf, kind, test), tag, le);
    }
  }

  lemma RemoveTagCanonical(conf: Conf, le: TagOrder, kind: string, test: string, tag: string)
    requires IsCanonical(conf, le)
    ensures IsCanonical(RemoveTag(conf, kind, test, tag), le)
  {
    hide SortedTags, NoDuplicates, Dropped;
    GetTagsCanonical(conf, le, kind, test);
    DroppedCanonical(GetTags(conf, kind, test), tag, le);
  }

  /** Every run of additions and removals keeps a canonical configuration canonical. */
  lemma {:induction false} RunsKeepCanonical(initial: Conf, le: TagOrder, ops: seq<Operation>)
    requires TotalOrder(le) && IsCanonical(initial, le)
    ensures IsCanonical(ApplyAll(initial, le, ops).conf, le)
  {
    if ops != [] {
      hide IsCanonical, AddTag, RemoveTag, TotalOrder;
      var c, op := ApplyAll(initial, le, ops[..|ops| - 1]), ops[|ops| - 1];
      RunsKeepCanonical(initial, le, ops[..|ops| - 1]);
      match op
      case Add(kind, test, tag, rate) => AddTagCanonical(c.conf, le, kind, test, tag);
      case Remove(kind, test, tag, rate) => RemoveTagCanonical(c.conf, le, kind, test, tag);
    }
  }

  /** The test kinds that some addition names. */
  function AddedKinds(ops: seq<Operation>): set<string> {
    set op | op in ops && op.Add? :: op.kind
  }

  lemma {:induction false} KindsAfter(initial: Conf, le: TagOrder, ops: seq<Operation>)
    ensures ApplyAll(initial, le, ops).conf.Keys == initial.Keys + AddedKinds(ops)
  {
    if ops != [] {
      var c, op, r := ApplyAll(initial, le, ops[..|ops| - 1]), ops[|ops| - 1], ops[..|ops| - 1];
      KindsAfter(initial, le, r);
      assert ops == r + [op];
      assert AddedKinds(ops) == AddedKinds(r) + if op.Add? then {op.kind} else {};
      hide AddedKinds, SortTags;
      ApplyKinds(c, le, op);
    }
  }

  lemma ApplyKinds(c: Change, le: TagOrder, op: Operation)
    ensures Apply(c, le, op).conf.Keys == c.conf.Keys + if op.Add? then {op.kind} else {}
  {
    hide SortTags, LogPut, LogCancel;
  }

  lemma SameConf(a: Conf, b: Conf, le: TagOrder)
    requires TotalOrder(le) && IsCanonical(a, le) && IsCanonical(b, le) && a.Keys == b.Keys
    requires forall k, t, x :: Has(a, k, t, x) <==> Has(b, k, t, x)
    ensures a == b
  {
    forall k | k in a
      ensures a[k] == b[k]
    {
      forall t, x
        ensures x in TagsIn(a[k].value, t) <==> x in TagsIn(b[k].value, t)
      {
        assert Has(a, k, t, x) <==> Has(b, k, t, x);
      }
      SamePatterns(a[k].value, b[k].value, le);
    }
  }

  lemma SamePatterns(p: Patterns, q: Patterns, le: TagOrder)
    requires TotalOrder(le) && AreCanonical(p, le) && AreCanonical(q, le)
    requires forall t, x :: x in TagsIn(p, t) <==> x in TagsIn(q, t)
    ensures p == q
  {
    hide TotalOrder, SortedTags, NoDuplicates;
    forall t
      ensures t in p <==> t in q
    {
      if t in p {
        assert p[t].value[0] in TagsIn(q, t);
      }
      if t in q {
        assert q[t].value[0] in TagsIn(p, t);
      }
    }
    forall t | t in p
      ensures p[t] == q[t]
    {
      assert TagsIn(p, t) == p[t].value && TagsIn(q, t) == q[t].value;
      CanonicalListUnique(p[t].value, q[t].value, le);
    }
  }

  lemma LogNotEmpty(log: Log) returns (k: string, t: string, x: string)
    requires HasNoEmpty(log) && log != map[]
    ensures InLog(log, k, t, x)
  {
    assert log.Keys != {};
    k :| k in log;
    assert log[k].Keys != {};
    t :| t in log[k];
    assert log[k][t].Keys != {};
    x :| x in log[k][t];
  }

  /**
   From a canonical configuration, `is_modified` holds after a run exactly when the changelog is
   not empty or some addition named a test kind that was not there; such a kind stays behind even
   when all its tags are removed again.
   */
  lemma ModifiedIffLogged(initial: Conf, le: TagOrder, ops: seq<Operation>)
    requires TotalOrder(le) && IsCanonical(initial, le)
    ensures var c := ApplyAll(initial, le, ops);
            c.conf != initial <==>
            c.added != map[] || c.removed != map[] || !(AddedKinds(ops) <= initial.Keys)
  {
    hide TotalOrder, IsCanonical, Has, ApplyAll, AddedKinds, InLog, HasNoEmpty;
    var c := ApplyAll(initial, le, ops);
    LogsAreTheDifference(initial, le, ops);
    RunsKeepCanonical(initial, le, ops);
    KindsAfter(initial, le, ops);
    if c.added != map[] {
      var k, t, x := LogNotEmpty(c.added);
      assert InLog(c.added, k, t, x);
    } else if c.removed != map[] {
      var k, t, x := LogNotEmpty(c.removed);
      assert InLog(c.removed, k, t, x);
    } else if AddedKinds(ops) <= initial.Keys {
      forall k, t, x
        ensures Has(c.conf, k, t, x) <==> Has(initial, k, t, x)
      {
        NothingIn(k, t, x);
      }
      SameConf(c.conf, initial, le);
    }
  }

  lemma NothingIn(k: string, t: string, x: string)
    ensures !InLog(map[], k, t, x)
  {
  }

  /** A kind that was not there first: an addition and its removal cancel in the log but not in the file. */
  lemma NewKindStaysBehind(le: TagOrder)
    ensures var c := ApplyAll(map[], le, [Add("js_test", "a.js", "unreliable", 1.0), Remove("js_test", "a.js", "unreliable", 0.0)]);
            c.added == map[] && c.removed == map[] && c.conf == map["js_test" := Some(map[])]
  {
    var add, remove := Add("js_test", "a.js", "unreliable", 1.0), Remove("js_test", "a.js", "unreliable", 0.0);
    assert [add, remove][..1] == [add] && [add][..0] == [];
    var none: Change := Change(map[], map[], map[]);
    var c := Apply(none, le, add);
    assert ApplyAll(map[], le, []) == none && ApplyAll(map[], le, [add]) == c;
    AddToNothing(le, add, none);
    assert GetTags(c.conf, "js_test", "a.js") == ["unreliable"];
    assert ["unreliable"][..0] == [];
    assert Dropped(["unreliable"], "unreliable") == [];
  }

  lemma AddToNothing(le: TagOrder, add: Operation, none: Change)
    requires none == Change(map[], map[], map[]) && add.Add?
    ensures var c := Apply(none, le, add);
            && c.conf == map[add.kind := Some(map[add.test := Some([add.tag])])]
            && c.added == map[add.kind := map[add.test := map[add.tag := add.rate]]]
            && c.removed == map[]
  {
    assert GetTags(none.conf, add.kind, add.test) == [];
    assert [] + [add.tag] == [add.tag];
    SortKeeps([add.tag], (s: string) => s, le);
    var r := SortTags([add.tag], le);
    SortTagsMember([add.tag], le, r[0]);
    assert r == [add.tag];
  }
}
