/**
 The lifecycle tool of buildscripts/update_test_lifecycle.py as objects updated in place: tag
 configurations with their changelog, the four-level update from test history, and the clean-up
 of tags that name nothing any more. Summaries of the test history are the input.
 */
module TestLifecycle {
  import opened Options
  import opened Sequences
  import opened Sorting
  import opened TagNames
  import opened TagsConfigs

  class TagsConfig {
    const le: TagOrder
    /** A deep copy of the configuration as it was read. */
    const original: Conf
    var conf: Conf

    constructor (raw: Conf, le: TagOrder)
      ensures conf == original == raw && this.le == le
    {
      this.le := le;
      original := raw;
      conf := raw;
    }

    method AddTag(kind: string, test: string, tag: string) returns (added: bool)
      modifies this
      ensures conf == TagsConfigs.AddTag(old(conf), le, kind, test, tag)
      ensures added <==> !Has(old(conf), kind, test, tag)
    {
      var patterns := GetPatterns(conf, kind);
      var tags := TagsIn(patterns, test);
      if tag !in tags {
        tags := SortTags(tags + [tag], le);
        patterns := patterns[test := Some(tags)];
        conf := conf[kind := Some(patterns)];
        return true;
      }
      return false;
    }

    method RemoveTag(kind: string, test: string, tag: string) returns (removed: bool)
      modifies this
      ensures conf == TagsConfigs.RemoveTag(old(conf), kind, test, tag)
      ensures removed <==> Has(old(conf), kind, test, tag)
    {
      if kind !in conf || conf[kind] == None || conf[kind].value == map[] || test !in conf[kind].value {
        return false;
      }
      var patterns := conf[kind].value;
      if patterns[test].Some? && tag in patterns[test].value {
        var tags := Dropped(patterns[test].value, tag);
        patterns := patterns[test := Some(tags)];
        if tags == [] {
          patterns := patterns - {test};
          assert patterns == conf[kind].value - {test};
        }
        conf := conf[kind := Some(patterns)];
        return true;
      }
      return false;
    }

    method RemoveTestPattern(kind: string, test: string)
      modifies this
      ensures conf == TagsConfigs.RemoveTestPattern(old(conf), kind, test)
      // The pattern is gone with all its tags, everything else is as before.
      ensures test !in GetPatterns(conf, kind)
      ensures forall k, t, x :: Has(conf, k, t, x) <==> Has(old(conf), k, t, x) && !(k == kind && t == test)
      ensures forall k, t :: k != kind || t != test ==> GetTags(conf, k, t) == GetTags(old(conf), k, t)
      ensures conf.Keys == old(conf).Keys
    {
      if kind in conf && conf[kind].Some? && test in conf[kind].value {
        conf := conf[kind := Some(conf[kind].value - {test})];
      }
    }

    predicate IsModified()
      reads this
    {
      conf != original
    }
  }

  type CleanUpLog = map<string, map<string, seq<string>>>

  class TagsConfigWithChangelog {
    const lifecycle: TagsConfig
    var added: Log
    var removed: Log
    var cleanedUp: CleanUpLog

    constructor (lifecycle: TagsConfig)
      ensures this.lifecycle == lifecycle && View() == Change(lifecycle.conf, map[], map[]) && cleanedUp == map[]
    {
      this.lifecycle := lifecycle;
      added := map[];
      removed := map[];
      cleanedUp := map[];
    }

    ghost function View(): Change
      reads this, lifecycle
    {
      Change(lifecycle.conf, added, removed)
    }

    /** Whether a test has a tag now. */
    ghost predicate Tagged(kind: string, test: string, tag: string)
      reads lifecycle
    {
      Has(lifecycle.conf, kind, test, tag)
    }

    /** The same with the rates stored for the tag. */
    ghost function State(kind: string, test: string, tag: string): TagState
      reads this, lifecycle
    {
      StateOf(View(), kind, test, tag)
    }

    /** The logs are the difference to the configuration as it was read. */
    ghost predicate Valid()
      reads this, lifecycle
    {
      LogsDifference(lifecycle.original, View())
    }

    method AddTag(kind: string, test: string, tag: string, rate: real)
      modifies this, lifecycle
      ensures View() == Apply(old(View()), lifecycle.le, Add(kind, test, tag, rate))
      ensures cleanedUp == old(cleanedUp)
    {
      var done := lifecycle.AddTag(kind, test, tag);
      if done {
        if InLog(removed, kind, test, tag) {
          removed := LogCancel(removed, kind, test, tag);
        } else {
          added := LogPut(added, kind, test, tag, rate);
        }
      }
    }

    method RemoveTag(kind: string, test: string, tag: string, rate: real)
      modifies this, lifecycle
      ensures View() == Apply(old(View()), lifecycle.le, Remove(kind, test, tag, rate))
      ensures cleanedUp == old(cleanedUp)
    {
      var done := lifecycle.RemoveTag(kind, test, tag);
      if done {
        if InLog(added, kind, test, tag) {
          added := LogCancel(added, kind, test, tag);
        } else {
          removed := LogPut(removed, kind, test, tag, rate);
        }
      }
    }

    /** An addition changes one tag, and keeps the logs right. */
    method Tag(kind: string, test: string, tag: string, rate: real)
      requires Valid()
      modifies this, lifecycle
      ensures Valid()
      ensures forall k, t, x :: Tagged(k, t, x) <==> old(Tagged(k, t, x)) || (k == kind && t == test && x == tag)
      ensures forall k, t, x :: State(k, t, x) ==
                if k == kind && t == test && x == tag then Plus(old(State(k, t, x)), rate) else old(State(k, t, x))
    {
      hide LogsDifference, Apply, Has, Rate;
      ghost var before, op := View(), Add(kind, test, tag, rate);
      AddTag(kind, test, tag, rate);
      ApplyAddLogs(lifecycle.original, before, lifecycle.le, kind, test, tag, rate);
      forall k, t, x
        ensures StateOf(View(), k, t, x) ==
                if k == kind && t == test && x == tag then Plus(StateOf(before, k, t, x), rate) else StateOf(before, k, t, x)
      {
        ApplyState(before, lifecycle.le, op, k, t, x);
      }
      forall k, t, x
        ensures Tagged(k, t, x) <==> old(Tagged(k, t, x)) || (k == kind && t == test && x == tag)
      {
        assert StateOf(View(), k, t, x).tagged == Tagged(k, t, x);
      }
    }

    /** A removal changes one tag, and keeps the logs right. */
    method Untag(kind: string, test: string, tag: string, rate: real)
      requires Valid()
      modifies this, lifecycle
      ensures Valid()
      ensures forall k, t, x :: Tagged(k, t, x) <==> old(Tagged(k, t, x)) && !(k == kind && t == test && x == tag)
      ensures forall k, t, x :: State(k, t, x) ==
                if k == kind && t == test && x == tag then Minus(old(State(k, t, x)), rate) else old(State(k, t, x))
    {
      hide LogsDifference, Apply, Has, Rate;
      ghost var before, op := View(), Remove(kind, test, tag, rate);
      RemoveTag(kind, test, tag, rate);
      ApplyRemoveLogs(lifecycle.original, before, lifecycle.le, kind, test, tag, rate);
      forall k, t, x
        ensures StateOf(View(), k, t, x) ==
                if k == kind && t == test && x == tag then Minus(StateOf(before, k, t, x), rate) else StateOf(before, k, t, x)
      {
        ApplyState(before, lifecycle.le, op, k, t, x);
      }
      forall k, t, x
        ensures Tagged(k, t, x) <==> old(Tagged(k, t, x)) && !(k == kind && t == test && x == tag)
      {
        assert StateOf(View(), k, t, x).tagged == Tagged(k, t, x);
      }
    }
  }

  /** A whole run of additions and removals on a configuration just read. */
  method Perform(tags: TagsConfigWithChangelog, ops: seq<Operation>)
    requires tags.View() == Change(tags.lifecycle.original, map[], map[])
    modifies tags, tags.lifecycle
    ensures tags.View() == ApplyAll(tags.lifecycle.original, tags.lifecycle.le, ops) && tags.Valid()
    ensures TotalOrder(tags.lifecycle.le) && IsCanonical(tags.lifecycle.original, tags.lifecycle.le) ==>
              (tags.lifecycle.IsModified() <==>
               tags.added != map[] || tags.removed != map[] || !(AddedKinds(ops) <= tags.lifecycle.original.Keys))
  {
    hide Apply, TotalOrder, IsCanonical, AddedKinds, LogsDifference;
    ghost var first, le := tags.lifecycle.original, tags.lifecycle.le;
    assert ops[..0] == [];
    for i := 0 to |ops|
      invariant tags.View() == ApplyAll(first, le, ops[..i])
    {
      match ops[i] {
        case Add(kind, test, tag, rate) => tags.AddTag(kind, test, tag, rate);
        case Remove(kind, test, tag, rate) => tags.RemoveTag(kind, test, tag, rate);
      }
      assert ops[..i + 1][..|ops[..i + 1]| - 1] == ops[..i];
    }
    assert ops[..|ops|] == ops;
    LogsAreTheDifference(first, le, ops);
    if TotalOrder(le) && IsCanonical(first, le) {
      ModifiedIffLogged(first, le, ops);
    }
  }

  // ----- Summaries of the test history -----

  datatype Summary = Summary(
    test: string, task: Option<string>, variant: Option<string>, distro: Option<string>,
    failRate: real, numPass: nat, numFail: nat)
  {
    function Tag(): string {
      UnreliableTag(task, variant, distro)
    }
  }

  type MethodTest = (real, real, int, int) -> bool

  predicate UnreliableTest(testRate: real, unacceptable: real, runs: int, minRuns: int) {
    runs >= minRuns && testRate >= unacceptable
  }

  predicate ReliableTest(testRate: real, acceptable: real, runs: int, minRuns: int) {
    runs < minRuns || testRate <= acceptable
  }

  /** `unreliable_test` as its documentation words it: more runs, a greater rate. */
  predicate UnreliableAsWorded(testRate: real, unacceptable: real, runs: int, minRuns: int) {
    runs > minRuns && testRate > unacceptable
  }

  /** `reliable_test` as its documentation words it: fewer runs or a lesser rate. */
  predicate ReliableAsWorded(testRate: real, acceptable: real, runs: int, minRuns: int) {
    runs < minRuns || testRate < acceptable
  }

  /** Where code and wording differ: only on the boundaries, and there the code counts equality. */
  lemma WordingDiffersIff(testRate: real, rate: real, runs: int, minRuns: int)
    ensures UnreliableTest(testRate, rate, runs, minRuns) != UnreliableAsWorded(testRate, rate, runs, minRuns) <==>
            || (runs == minRuns && testRate >= rate)
            || (runs > minRuns && testRate == rate)
    ensures ReliableTest(testRate, rate, runs, minRuns) != ReliableAsWorded(testRate, rate, runs, minRuns) <==>
            runs >= minRuns && testRate == rate
    ensures UnreliableAsWorded(testRate, rate, runs, minRuns) ==> UnreliableTest(testRate, rate, runs, minRuns)
    ensures ReliableAsWorded(testRate, rate, runs, minRuns) ==> ReliableTest(testRate, rate, runs, minRuns)
  {
  }

  predicate Meets(s: Summary, passes: MethodTest, rate: real, minRuns: int) {
    passes(s.failRate, rate, s.numPass + s.numFail, minRuns)
  }

  /** Some summary for this test and tag passes the test for reliability or unreliability. */
  ghost predicate Selected(report: seq<Summary>, passes: MethodTest, rate: real, minRuns: int, test: string, tag: string) {
    exists s :: s in report && s.test == test && s.Tag() == tag && Meets(s, passes, rate, minRuns)
  }

  predicate Selects(s: Summary, passes: MethodTest, rate: real, minRuns: int, test: string, tag: string) {
    s.test == test && s.Tag() == tag && Meets(s, passes, rate, minRuns)
  }

  /** The failure rate of the first summary that selects the test and tag. */
  function FirstRate(report: seq<Summary>, passes: MethodTest, rate: real, minRuns: int, test: string, tag: string): Option<real> {
    if report == [] then None
    else
      var r, s := FirstRate(Pop(report), passes, rate, minRuns, test, tag), Top(report);
      if r.Some? then r else if Selects(s, passes, rate, minRuns, test, tag) then Some(s.failRate) else None
  }

  /** Summary `i` is the first that selects the test and tag. */
  ghost predicate IsFirst(report: seq<Summary>, passes: MethodTest, rate: real, minRuns: int, test: string, tag: string, i: nat) {
    && i < |report| && Selects(report[i], passes, rate, minRuns, test, tag)
    && forall j :: 0 <= j < i ==> !Selects(report[j], passes, rate, minRuns, test, tag)
  }

  lemma {:induction false} FirstRateIs(report: seq<Summary>, passes: MethodTest, rate: real, minRuns: int, test: string, tag: string)
    returns (i: nat)
    ensures var r := FirstRate(report, passes, rate, minRuns, test, tag);
            && (r.Some? <==> Selected(report, passes, rate, minRuns, test, tag))
            && (r.Some? ==> IsFirst(report, passes, rate, minRuns, test, tag, i) && r.value == report[i].failRate)
  {
    hide Selects, Meets;
    i := 0;
    if report != [] {
      i := FirstRateIs(Pop(report), passes, rate, minRuns, test, tag);
      SelectedLast(report, passes, rate, minRuns, test, tag);
      var r := FirstRate(Pop(report), passes, rate, minRuns, test, tag);
      if r.None? {
        i := |report| - 1;
        forall j | 0 <= j < i
          ensures !Selects(report[j], passes, rate, minRuns, test, tag)
        {
          NotSelected(Pop(report), passes, rate, minRuns, test, tag, j);
        }
      }
    }
  }

  lemma NotSelected(report: seq<Summary>, passes: MethodTest, rate: real, minRuns: int, test: string, tag: string, j: nat)
    requires !Selected(report, passes, rate, minRuns, test, tag) && j < |report|
    ensures !Selects(report[j], passes, rate, minRuns, test, tag)
  {
    assert report[j] in report;
  }

  lemma SelectedLast(report: seq<Summary>, passes: MethodTest, rate: real, minRuns: int, test: string, tag: string)
    requires report != []
    ensures Selected(report, passes, rate, minRuns, test, tag) <==>
            Selected(Pop(report), passes, rate, minRuns, test, tag) || Selects(Top(report), passes, rate, minRuns, test, tag)
  {
    assert report[..|report|] == report && report[..|report| - 1] == Pop(report);
    SelectedNext(report, |report| - 1, passes, rate, minRuns);
  }

  /** What the summaries do to a tag: an addition or a removal at the rate of the first that selects it. */
  function AfterReport(s: TagState, first: Option<real>, addTags: bool): TagState {
    if first.None? then s else if addTags then Plus(s, first.value) else Minus(s, first.value)
  }

  const JS_TEST := "js_test"

  method UpdateLifecycle(tags: TagsConfigWithChangelog, report: seq<Summary>, passes: MethodTest, addTags: bool,
                         rate: real, minRuns: int)
    requires tags.Valid()
    modifies tags, tags.lifecycle
    ensures tags.Valid()
    ensures forall k, t, x :: tags.Tagged(k, t, x) <==>
              if k == JS_TEST && Selected(report, passes, rate, minRuns, t, x) then addTags else old(tags.Tagged(k, t, x))
    // What is stored is the failure rate of the first summary that selects the tag.
    ensures forall k, t, x :: k != JS_TEST ==> tags.State(k, t, x) == old(tags.State(k, t, x))
    ensures forall t, x :: tags.State(JS_TEST, t, x) ==
              AfterReport(old(tags.State(JS_TEST, t, x)), FirstRate(report, passes, rate, minRuns, t, x), addTags)
  {
    hide LogsDifference, Has, Rate, Meets, Selected;
    var i := 0;
    while i < |report|
      invariant 0 <= i <= |report| && tags.Valid()
      invariant forall k, t, x :: k != JS_TEST ==> tags.State(k, t, x) == old(tags.State(k, t, x))
      invariant forall t, x :: tags.State(JS_TEST, t, x) ==
                  AfterReport(old(tags.State(JS_TEST, t, x)), FirstRate(report[..i], passes, rate, minRuns, t, x), addTags)
    {
      var s := report[i];
      assert Pop(report[..i + 1]) == report[..i] && Top(report[..i + 1]) == s;
      if Meets(s, passes, rate, minRuns) {
        if addTags {
          tags.Tag(JS_TEST, s.test, s.Tag(), s.failRate);
        } else {
          tags.Untag(JS_TEST, s.test, s.Tag(), s.failRate);
        }
      }
      i := i + 1;
    }
    assert report[..i] == report;
    forall k, t, x
      ensures tags.Tagged(k, t, x) <==>
              if k == JS_TEST && Selected(report, passes, rate, minRuns, t, x) then addTags else old(tags.Tagged(k, t, x))
    {
      var _ := FirstRateIs(report, passes, rate, minRuns, t, x);
      assert tags.State(k, t, x).tagged == tags.Tagged(k, t, x);
      assert old(tags.State(k, t, x)).tagged == old(tags.Tagged(k, t, x));
    }
  }

  lemma SelectedNext(report: seq<Summary>, i: nat, passes: MethodTest, rate: real, minRuns: int)
    requires i < |report|
    ensures forall t, x :: Selected(report[..i + 1], passes, rate, minRuns, t, x) <==>
              || Selected(report[..i], passes, rate, minRuns, t, x)
              || (report[i].test == t && report[i].Tag() == x && Meets(report[i], passes, rate, minRuns))
  {
    assert report[..i + 1] == report[..i] + [report[i]];
    forall t, x
      ensures Selected(report[..i + 1], passes, rate, minRuns, t, x) <==>
              || Selected(report[..i], passes, rate, minRuns, t, x)
              || (report[i].test == t && report[i].Tag() == x && Meets(report[i], passes, rate, minRuns))
    {
      if Selected(report[..i], passes, rate, minRuns, t, x) {
        var s :| s in report[..i] && s.test == t && s.Tag() == x && Meets(s, passes, rate, minRuns);
        assert s in report[..i + 1];
      }
      if report[i].test == t && report[i].Tag() == x && Meets(report[i], passes, rate, minRuns) {
        assert report[i] in report[..i + 1];
      }
    }
  }

  // ----- One level of components -----

  /**
   What the report says on one level: `size` components including the test, the summaries of the
   two time windows, the combinations that ran in the recent one, and the failure rates.
   */
  datatype Level = Level(
    size: nat, unreliable: seq<Summary>, reliable: seq<Summary>, combinations: set<seq<string>>,
    unacceptable: real, acceptable: real)

  datatype Config = Config(reliableMinRuns: int, unreliableMinRuns: int)

  ghost predicate IsUnreliable(l: Level, c: Config, test: string, tag: string) {
    Selected(l.unreliable, UnreliableTest, l.unacceptable, c.unreliableMinRuns, test, tag)
  }

  ghost predicate IsReliable(l: Level, c: Config, test: string, tag: string) {
    Selected(l.reliable, ReliableTest, l.acceptable, c.reliableMinRuns, test, tag)
  }

  /** The tag is for this level and its combination did not run in the recent window. */
  predicate IsStale(l: Level, test: string, tag: string) {
    var combination := CombinationFromTag(test, tag);
    |combination| == l.size && combination !in l.combinations
  }

  /** Whether a test has a tag after one level, given whether it had it before. */
  ghost predicate AfterLevel(l: Level, c: Config, tests: seq<string>, before: bool, test: string, tag: string) {
    && (before || IsUnreliable(l, c, test, tag))
    && !IsReliable(l, c, test, tag)
    && !(test in tests && IsStale(l, test, tag))
  }

  /** Remove the tags of one test whose combinations did not run; a copy of the list is iterated. */
  method RemoveStaleTags(tags: TagsConfigWithChangelog, l: Level, test: string)
    requires tags.Valid()
    modifies tags, tags.lifecycle
    ensures tags.Valid()
    ensures forall k, t, x :: tags.Tagged(k, t, x) <==>
              old(tags.Tagged(k, t, x)) && !(k == JS_TEST && t == test && IsStale(l, test, x))
    // What is stored for a stale tag is the rate 0.
    ensures forall k, t, x :: tags.State(k, t, x) ==
              if k == JS_TEST && t == test && IsStale(l, test, x) then Minus(old(tags.State(k, t, x)), 0.0)
              else old(tags.State(k, t, x))
  {
    hide LogsDifference, IsStale, Rate;
    var snapshot := GetTags(tags.lifecycle.conf, JS_TEST, test);
    assert forall x :: old(tags.State(JS_TEST, test, x)).tagged <==> x in snapshot;
    hide Has;
    var i := 0;
    while i < |snapshot|
      invariant 0 <= i <= |snapshot| && tags.Valid()
      invariant forall k, t, x :: tags.State(k, t, x) ==
                  if k == JS_TEST && t == test && x in snapshot[..i] && IsStale(l, test, x)
                  then Minus(old(tags.State(k, t, x)), 0.0) else old(tags.State(k, t, x))
    {
      assert snapshot[..i + 1] == snapshot[..i] + [snapshot[i]];
      if IsStale(l, test, snapshot[i]) {
        tags.Untag(JS_TEST, test, snapshot[i], 0.0);
      }
      i := i + 1;
    }
    assert snapshot[..i] == snapshot;
    forall k, t, x
      ensures tags.Tagged(k, t, x) <==> old(tags.Tagged(k, t, x)) && !(k == JS_TEST && t == test && IsStale(l, test, x))
    {
      assert tags.State(k, t, x).tagged == tags.Tagged(k, t, x);
      assert old(tags.State(k, t, x)).tagged == old(tags.Tagged(k, t, x));
    }
  }

  /** A tag and its stored rates after one level: the unreliable summaries, then the reliable ones, then staleness. */
  ghost function StateAfterLevel(l: Level, c: Config, tests: seq<string>, s: TagState, test: string, tag: string): TagState {
    var s1 := AfterReport(s, FirstRate(l.unreliable, UnreliableTest, l.unacceptable, c.unreliableMinRuns, test, tag), true);
    var s2 := AfterReport(s1, FirstRate(l.reliable, ReliableTest, l.acceptable, c.reliableMinRuns, test, tag), false);
    if test in tests && IsStale(l, test, tag) then Minus(s2, 0.0) else s2
  }

  method UpdateLevel(tags: TagsConfigWithChangelog, c: Config, l: Level, tests: seq<string>)
    requires tags.Valid()
    modifies tags, tags.lifecycle
    ensures tags.Valid()
    ensures forall k, t, x :: k != JS_TEST ==> (tags.Tagged(k, t, x) <==> old(tags.Tagged(k, t, x)))
    ensures forall t, x :: tags.Tagged(JS_TEST, t, x) <==> AfterLevel(l, c, tests, old(tags.Tagged(JS_TEST, t, x)), t, x)
    ensures forall k, t, x :: k != JS_TEST ==> tags.State(k, t, x) == old(tags.State(k, t, x))
    ensures forall t, x :: tags.State(JS_TEST, t, x) == StateAfterLevel(l, c, tests, old(tags.State(JS_TEST, t, x)), t, x)
  {
    hide LogsDifference, IsStale, Selected, Has, Rate, StateOf, FirstRate;
    UpdateLifecycle(tags, l.unreliable, UnreliableTest, true, l.unacceptable, c.unreliableMinRuns);
    UpdateLifecycle(tags, l.reliable, ReliableTest, false, l.acceptable, c.reliableMinRuns);
    label summarized:
    var i := 0;
    while i < |tests|
      invariant 0 <= i <= |tests| && tags.Valid()
      invariant forall k, t, x :: tags.Tagged(k, t, x) <==>
                  old@summarized(tags.Tagged(k, t, x)) &&
                  !(k == JS_TEST && t in tests[..i] && IsStale(l, t, x))
      invariant forall k, t, x :: tags.State(k, t, x) ==
                  if k == JS_TEST && t in tests[..i] && IsStale(l, t, x) then Minus(old@summarized(tags.State(k, t, x)), 0.0)
                  else old@summarized(tags.State(k, t, x))
    {
      assert tests[..i + 1] == tests[..i] + [tests[i]];
      RemoveStaleTags(tags, l, tests[i]);
      i := i + 1;
    }
    assert tests[..i] == tests;
  }

  // ----- The four levels -----

  ghost predicate AfterLevels(ls: seq<Level>, c: Config, tests: seq<string>, before: bool, test: string, tag: string)
    decreases |ls|
  {
    if ls == [] then before
    else AfterLevel(ls[|ls| - 1], c, tests, AfterLevels(ls[..|ls| - 1], c, tests, before, test, tag), test, tag)
  }

  ghost function StateAfterLevels(ls: seq<Level>, c: Config, tests: seq<string>, s: TagState, test: string, tag: string): TagState
    decreases |ls|
  {
    if ls == [] then s
    else StateAfterLevel(ls[|ls| - 1], c, tests, StateAfterLevels(ls[..|ls| - 1], c, tests, s, test, tag), test, tag)
  }

  method UpdateTags(tags: TagsConfigWithChangelog, c: Config, ls: seq<Level>, tests: seq<string>)
    requires tags.Valid()
    modifies tags, tags.lifecycle
    ensures tags.Valid()
    ensures forall k, t, x :: k != JS_TEST ==> (tags.Tagged(k, t, x) <==> old(tags.Tagged(k, t, x)))
    ensures forall t, x :: tags.Tagged(JS_TEST, t, x) <==> AfterLevels(ls, c, tests, old(tags.Tagged(JS_TEST, t, x)), t, x)
    ensures forall t, x :: tags.State(JS_TEST, t, x) == StateAfterLevels(ls, c, tests, old(tags.State(JS_TEST, t, x)), t, x)
  {
    hide LogsDifference, AfterLevel, Has, StateAfterLevel, StateOf;
    var i := 0;
    assert ls[..0] == [];
    while i < |ls|
      invariant 0 <= i <= |ls| && tags.Valid()
      invariant forall k, t, x :: k != JS_TEST ==> (tags.Tagged(k, t, x) <==> old(tags.Tagged(k, t, x)))
      invariant forall t, x :: tags.Tagged(JS_TEST, t, x) <==>
                  AfterLevels(ls[..i], c, tests, old(tags.Tagged(JS_TEST, t, x)), t, x)
      invariant forall t, x :: tags.State(JS_TEST, t, x) ==
                  StateAfterLevels(ls[..i], c, tests, old(tags.State(JS_TEST, t, x)), t, x)
    {
      UpdateLevel(tags, c, ls[i], tests);
      i := i + 1;
      assert ls[..i][..|ls[..i]| - 1] == ls[..i - 1];
    }
    assert ls[..i] == ls;
  }

  /** The combination a summary is about. */
  function CombinationOf(s: Summary): seq<string> {
    if s.task.None? then [s.test]
    else if s.variant.None? then [s.test, s.task.value]
    else if s.distro.None? then [s.test, s.task.value, s.variant.value]
    else [s.test, s.task.value, s.variant.value, s.distro.value]
  }

  predicate IsCombination(combination: seq<string>) {
    1 <= |combination| <= 4 && forall i :: 1 <= i < |combination| ==> IsName(combination[i])
  }

  /** The summaries of a level have its components, and those of the unreliable window ran recently. */
  ghost predicate IsLevelReport(l: Level) {
    && (forall s :: s in l.unreliable ==>
          IsCombination(CombinationOf(s)) && |CombinationOf(s)| == l.size && CombinationOf(s) in l.combinations)
    && (forall s :: s in l.reliable ==> IsCombination(CombinationOf(s)) && |CombinationOf(s)| == l.size)
  }

  lemma SummaryTag(s: Summary, combination: seq<string>)
    requires IsCombination(CombinationOf(s)) && IsCombination(combination) && s.test == combination[0]
    ensures s.Tag() == TagFor(combination) <==> CombinationOf(s) == combination
  {
    assert s.Tag() == TagFor(CombinationOf(s));
    if s.Tag() == TagFor(combination) {
      TagForInjective(CombinationOf(s), combination);
    }
  }

  /** Some summary for this very combination passes. */
  ghost predicate SelectsCombination(report: seq<Summary>, passes: MethodTest, rate: real, minRuns: int, combination: seq<string>) {
    exists s :: s in report && CombinationOf(s) == combination && Meets(s, passes, rate, minRuns)
  }

  lemma SelectedIffCombination(report: seq<Summary>, passes: MethodTest, rate: real, minRuns: int, combination: seq<string>)
    requires forall s :: s in report ==> IsCombination(CombinationOf(s))
    requires IsCombination(combination)
    ensures Selected(report, passes, rate, minRuns, combination[0], TagFor(combination)) <==>
            SelectsCombination(report, passes, rate, minRuns, combination)
  {
    hide UnreliableTag;
    var test, tag := combination[0], TagFor(combination);
    if s :| s in report && s.test == test && s.Tag() == tag && Meets(s, passes, rate, minRuns) {
      SummaryTag(s, combination);
    }
    if s :| s in report && CombinationOf(s) == combination && Meets(s, passes, rate, minRuns) {
      SummaryTag(s, combination);
    }
  }

  /**
   A level decides about its own combinations: the tag is gone if the combination was reliable in
   the recent window; it is there if the combination was unreliable and not reliable; it is gone
   if the combination did not run and its test is listed; otherwise it is as before.
   */
  lemma LevelDecides(l: Level, c: Config, tests: seq<string>, before: bool, combination: seq<string>)
    requires IsLevelReport(l) && IsCombination(combination) && |combination| == l.size
    ensures AfterLevel(l, c, tests, before, combination[0], TagFor(combination)) <==>
            if SelectsCombination(l.reliable, ReliableTest, l.acceptable, c.reliableMinRuns, combination) then false
            else if SelectsCombination(l.unreliable, UnreliableTest, l.unacceptable, c.unreliableMinRuns, combination) then true
            else if combination !in l.combinations && combination[0] in tests then false
            else before
  {
    hide CombinationFromTag, TagFor, Selected;
    TagRoundTrip(combination);
    SelectedIffCombination(l.reliable, ReliableTest, l.acceptable, c.reliableMinRuns, combination);
    SelectedIffCombination(l.unreliable, UnreliableTest, l.unacceptable, c.unreliableMinRuns, combination);
  }

  /** A level leaves the tags of combinations of another size alone. */
  lemma LevelIgnoresOthers(l: Level, c: Config, tests: seq<string>, before: bool, combination: seq<string>)
    requires IsLevelReport(l) && IsCombination(combination) && |combination| != l.size
    ensures AfterLevel(l, c, tests, before, combination[0], TagFor(combination)) <==> before
  {
    hide CombinationFromTag, TagFor, Selected;
    TagRoundTrip(combination);
    SelectedIffCombination(l.reliable, ReliableTest, l.acceptable, c.reliableMinRuns, combination);
    SelectedIffCombination(l.unreliable, UnreliableTest, l.unacceptable, c.unreliableMinRuns, combination);
  }

  lemma {:induction false} LevelsBefore(ls: seq<Level>, c: Config, tests: seq<string>, before: bool, combination: seq<string>, n: nat)
    requires (forall i :: 0 <= i < |ls| ==> IsLevelReport(ls[i])) && IsCombination(combination)
    requires n <= |ls| && forall i :: n <= i < |ls| ==> ls[i].size != |combination|
    ensures AfterLevels(ls, c, tests, before, combination[0], TagFor(combination)) <==>
            AfterLevels(ls[..n], c, tests, before, combination[0], TagFor(combination))
    decreases |ls|
  {
    hide AfterLevel, IsLevelReport;
    if n < |ls| {
      var r := ls[..|ls| - 1];
      LevelsBefore(r, c, tests, before, combination, n);
      assert r[..n] == ls[..n];
      var b := AfterLevels(r, c, tests, before, combination[0], TagFor(combination));
      LevelIgnoresOthers(ls[|ls| - 1], c, tests, b, combination);
    } else {
      assert ls[..n] == ls;
    }
  }

  /** Over all levels, only the level of a combination's own size decides about its tag. */
  lemma OwnLevelDecides(ls: seq<Level>, c: Config, tests: seq<string>, before: bool, combination: seq<string>, n: nat)
    requires (forall i :: 0 <= i < |ls| ==> IsLevelReport(ls[i])) && IsCombination(combination)
    requires n < |ls| && ls[n].size == |combination|
    requires forall i :: 0 <= i < |ls| && i != n ==> ls[i].size != |combination|
    ensures AfterLevels(ls, c, tests, before, combination[0], TagFor(combination)) <==>
            AfterLevel(ls[n], c, tests, before, combination[0], TagFor(combination))
  {
    hide AfterLevel, IsLevelReport;
    LevelsBefore(ls, c, tests, before, combination, n + 1);
    LevelsBefore(ls[..n], c, tests, before, combination, 0);
    assert ls[..n + 1][..n] == ls[..n] && ls[..n][..0] == [];
  }

  /**
   Why components must be named: with an empty variant, the tag of a distro counts on the level of
   variants.
   */
  lemma EmptyVariantIsMistaken(test: string, task: string, distro: string)
    requires IsName(task) && IsName(distro)
    ensures CombinationFromTag(test, Join(["unreliable", task, "", distro])) == [test, task, distro]
  {
    hide Split, Join;
    var parts := ["unreliable", task, "", distro];
    assert HasNoBar("unreliable") && HasNoBar("");
    SplitJoin(parts);
  }

  /** The tag of a summary has the expected shape. */
  lemma SummaryTagIsOwn(s: Summary)
    requires IsCombination(CombinationOf(s))
    ensures IsOwnTag(s.Tag())
  {
    hide Split;
    assert s.Tag() == TagFor(CombinationOf(s));
    NamedTagSplits(CombinationOf(s));
  }

  lemma OnlyOwnSelected(report: seq<Summary>, passes: MethodTest, rate: real, minRuns: int, test: string, tag: string)
    requires forall s :: s in report ==> IsCombination(CombinationOf(s))
    requires !IsOwnTag(tag)
    ensures !Selected(report, passes, rate, minRuns, test, tag)
  {
    hide IsOwnTag;
    if s :| s in report && s.test == test && s.Tag() == tag && Meets(s, passes, rate, minRuns) {
      SummaryTagIsOwn(s);
      assert false;
    }
  }

  /**
   A tag that is not the tag of any combination: no level ever adds it or takes it for reliable. The
   level of the combination it is mistaken for removes it from a listed test exactly when that
   combination did not run. A tag of another shape altogether is mistaken for the whole test.
   */
  lemma OtherTagIsMistaken(l: Level, c: Config, tests: seq<string>, before: bool, test: string, tag: string)
    requires IsLevelReport(l) && !IsOwnTag(tag)
    ensures var m := CombinationFromTag(test, tag);
            && 1 <= |m| <= 4 && TagFor(m) != tag
            && (AfterLevel(l, c, tests, before, test, tag) <==>
                before && !(test in tests && |m| == l.size && m !in l.combinations))
    ensures Split(tag)[0] != "unreliable" || |Split(tag)| > 4 ==> CombinationFromTag(test, tag) == [test]
  {
    hide Split, IsOwnTag, Selected;
    OwnTagIff(test, tag);
    OnlyOwnSelected(l.unreliable, UnreliableTest, l.unacceptable, c.unreliableMinRuns, test, tag);
    OnlyOwnSelected(l.reliable, ReliableTest, l.acceptable, c.reliableMinRuns, test, tag);
  }

  /** Over all levels such a tag stays exactly when it was there and no level takes it for stale. */
  lemma {:induction false} OtherTagStaysIff(
    ls: seq<Level>, c: Config, tests: seq<string>, before: bool, test: string, tag: string)
    requires (forall i :: 0 <= i < |ls| ==> IsLevelReport(ls[i])) && !IsOwnTag(tag)
    ensures AfterLevels(ls, c, tests, before, test, tag) <==>
            before && (test in tests ==> forall i :: 0 <= i < |ls| ==> !IsStale(ls[i], test, tag))
    decreases |ls|
  {
    hide AfterLevel, IsLevelReport, IsOwnTag, CombinationFromTag;
    if ls != [] {
      var r, l := ls[..|ls| - 1], ls[|ls| - 1];
      OtherTagStaysIff(r, c, tests, before, test, tag);
      OtherTagIsMistaken(l, c, tests, AfterLevels(r, c, tests, before, test, tag), test, tag);
      assert forall i :: 0 <= i < |ls| ==> ls[i] == if i < |r| then r[i] else l;
    }
  }

  // ----- The order of the tags in the file -----

  /** Every later tag of a list comes later by its components. */
  ghost predicate IsOrdered(tags: Tags) {
    forall i, j :: 0 <= i < j < |tags| ==> TagPrecedes(tags[i], tags[j]) && tags[i] != tags[j]
  }

  /** The lifecycle file is sorted with `compare_tags`: after any run its lists are in the order of the components. */
  lemma RunsKeepTagsOrdered(initial: Conf, ops: seq<Operation>, kind: string, test: string)
    requires IsCanonical(initial, TagLe)
    ensures IsOrdered(GetTags(ApplyAll(initial, TagLe, ops).conf, kind, test))
  {
    hide IsCanonical, ApplyAll, TotalOrder, TagLe, TagPrecedes;
    CompareTagsIsTotalOrder();
    RunsKeepCanonical(initial, TagLe, ops);
    var conf := ApplyAll(initial, TagLe, ops).conf;
    var tags := GetTags(conf, kind, test);
    GetTagsCanonical(conf, TagLe, kind, test);
    forall i, j | 0 <= i < j < |tags|
      ensures TagPrecedes(tags[i], tags[j]) && tags[i] != tags[j]
    {
      TagsInOrder(tags, i, j);
      TagLeIff(tags[i], tags[j]);
    }
  }

  lemma TagsInOrder(tags: Tags, i: nat, j: nat)
    requires SortedTags(tags, TagLe) && i < j < |tags|
    ensures TagLe(tags[i], tags[j])
  {
    hide TagLe;
    var key := (t: string) => t;
    assert key(tags[i]) == tags[i] && key(tags[j]) == tags[j];
  }

  // ----- Clean-up -----

  /**
   What the clean-up loop makes of a tag list. The loop goes through the list by position while
   tags are removed from that very list, so the tag after a removed one is passed over.
   */
  function CleanLive(tags: Tags, relevant: string -> bool, i: nat): Tags
    decreases |tags| - i
  {
    if i >= |tags| then tags
    else if relevant(tags[i]) then CleanLive(tags, relevant, i + 1)
    else
      DroppedShorter(tags, tags[i]);
      CleanLive(Dropped(tags, tags[i]), relevant, i + 1)
  }

  lemma {:induction false} DroppedShorter(tags: Tags, tag: string)
    ensures |Dropped(tags, tag)| <= |tags|
    ensures tag in tags ==> |Dropped(tags, tag)| < |tags|
  {
    if tags != [] {
      var r := tags[..|tags| - 1];
      DroppedShorter(r, tag);
      assert tags == r + [tags[|tags| - 1]];
    }
  }

  lemma {:induction false} DroppedNone(tags: Tags, tag: string)
    requires tag !in tags
    ensures Dropped(tags, tag) == tags
  {
    if tags != [] {
      var r := tags[..|tags| - 1];
      assert tags == r + [tags[|tags| - 1]];
      DroppedNone(r, tag);
    }
  }

  /** In a list without duplicates only the one position goes. */
  lemma {:induction false} DroppedAt(tags: Tags, i: nat)
    requires NoDuplicates(tags) && i < |tags|
    ensures Dropped(tags, tags[i]) == tags[..i] + tags[i + 1..]
    decreases |tags|
  {
    var r, last := tags[..|tags| - 1], tags[|tags| - 1];
    assert tags == r + [last];
    if i == |tags| - 1 {
      DroppedNone(r, tags[i]);
    } else {
      DroppedAt(r, i);
      assert r[..i] == tags[..i] && r[i + 1..] + [last] == tags[i + 1..];
    }
  }

  /** The tags that stay: a tag after a removed one stays whatever it is. */
  function Staying(tags: Tags, relevant: string -> bool): Tags {
    if tags == [] then []
    else if relevant(tags[0]) then [tags[0]] + Staying(tags[1..], relevant)
    else if |tags| == 1 then []
    else [tags[1]] + Staying(tags[2..], relevant)
  }

  lemma NoDuplicatesWithout(tags: Tags, i: nat)
    requires NoDuplicates(tags) && i < |tags|
    ensures NoDuplicates(tags[..i] + tags[i + 1..])
  {
  }

  lemma {:induction false} CleanLiveIsStaying(tags: Tags, relevant: string -> bool, i: nat)
    requires NoDuplicates(tags) && i <= |tags|
    ensures CleanLive(tags, relevant, i) == tags[..i] + Staying(tags[i..], relevant)
    decreases |tags| - i
  {
    hide NoDuplicates, Dropped;
    var s := tags[i..];
    if i == |tags| {
      assert tags[..i] == tags;
    } else if relevant(tags[i]) {
      CleanLiveIsStaying(tags, relevant, i + 1);
      assert s[0] == tags[i] && s[1..] == tags[i + 1..];
      assert tags[..i + 1] == tags[..i] + [tags[i]];
    } else {
      DroppedAt(tags, i);
      NoDuplicatesWithout(tags, i);
      var d := tags[..i] + tags[i + 1..];
      assert s[0] == tags[i];
      if i + 1 == |tags| {
        assert d == tags[..i] && CleanLive(d, relevant, i + 1) == d;
      } else {
        CleanLiveIsStaying(d, relevant, i + 1);
        assert d[i + 1..] == tags[i + 2..] && s[2..] == tags[i + 2..] && s[1] == tags[i + 1];
        assert d[..i + 1] == tags[..i] + [tags[i + 1]];
      }
    }
  }

  /** Two tags next to each other are both irrelevant. */
  ghost predicate HasNeighbours(tags: Tags, relevant: string -> bool) {
    exists i :: 0 <= i < |tags| - 1 && AreNeighbours(tags, relevant, i)
  }

  predicate AreNeighbours(tags: Tags, relevant: string -> bool, i: nat)
    requires i + 1 < |tags|
  {
    !relevant(tags[i]) && !relevant(tags[i + 1])
  }

  ghost predicate AllRelevant(tags: Tags, relevant: string -> bool) {
    forall x :: x in tags ==> relevant(x)
  }

  lemma NeighboursShift(tags: Tags, relevant: string -> bool, k: nat)
    requires k <= |tags|
    ensures HasNeighbours(tags[k..], relevant) ==> HasNeighbours(tags, relevant)
    ensures HasNeighbours(tags, relevant) ==>
              HasNeighbours(tags[k..], relevant) || exists i :: 0 <= i < k && i < |tags| - 1 && AreNeighbours(tags, relevant, i)
  {
    if HasNeighbours(tags[k..], relevant) {
      var i :| 0 <= i < |tags[k..]| - 1 && AreNeighbours(tags[k..], relevant, i);
      assert AreNeighbours(tags, relevant, k + i);
    }
    if HasNeighbours(tags, relevant) {
      var i :| 0 <= i < |tags| - 1 && AreNeighbours(tags, relevant, i);
      if i >= k {
        assert AreNeighbours(tags[k..], relevant, i - k);
      }
    }
  }

  lemma {:induction false} StayingRelevantIff(tags: Tags, relevant: string -> bool)
    ensures AllRelevant(Staying(tags, relevant), relevant) <==> !HasNeighbours(tags, relevant)
    decreases |tags|
  {
    hide HasNeighbours;
    if |tags| <= 1 {
      FewNeighbours(tags, relevant);
    } else if relevant(tags[0]) {
      StayingRelevantIff(tags[1..], relevant);
      NeighboursShift(tags, relevant, 1);
      assert !AreNeighbours(tags, relevant, 0);
      AllRelevantCons(tags[0], Staying(tags[1..], relevant), relevant);
    } else {
      StayingRelevantIff(tags[2..], relevant);
      NeighboursShift(tags, relevant, 2);
      AllRelevantCons(tags[1], Staying(tags[2..], relevant), relevant);
      FirstNeighbours(tags, relevant);
    }
  }

  lemma FewNeighbours(tags: Tags, relevant: string -> bool)
    requires |tags| <= 1
    ensures !HasNeighbours(tags, relevant) && AllRelevant(Staying(tags, relevant), relevant)
  {
  }

  lemma FirstNeighbours(tags: Tags, relevant: string -> bool)
    requires |tags| > 1 && !relevant(tags[0])
    ensures !relevant(tags[1]) ==> HasNeighbours(tags, relevant)
  {
    if !relevant(tags[1]) {
      assert AreNeighbours(tags, relevant, 0);
    }
  }

  lemma AllRelevantCons(x: string, tags: Tags, relevant: string -> bool)
    ensures AllRelevant([x] + tags, relevant) <==> relevant(x) && AllRelevant(tags, relevant)
  {
    assert x in [x] + tags;
    assert forall y :: y in tags ==> y in [x] + tags;
  }

  lemma {:induction false} DroppedConcat(a: Tags, b: Tags, tag: string)
    ensures Dropped(a + b, tag) == Dropped(a, tag) + Dropped(b, tag)
    decreases |b|
  {
    if b == [] {
      assert a + b == a;
    } else {
      var r := b[..|b| - 1];
      assert (a + b)[..|a + b| - 1] == a + r;
      DroppedConcat(a, r, tag);
    }
  }

  lemma DroppedFirst(tags: Tags, tag: string)
    requires tags != []
    ensures Dropped(tags, tag) == (if tags[0] == tag then [] else [tags[0]]) + Dropped(tags[1..], tag)
  {
    assert tags == [tags[0]] + tags[1..];
    DroppedConcat([tags[0]], tags[1..], tag);
    assert [tags[0]][..0] == [];
  }

  lemma NeighboursCons(x: string, tags: Tags, relevant: string -> bool)
    ensures HasNeighbours([x] + tags, relevant) <==>
            HasNeighbours(tags, relevant) || (tags != [] && !relevant(x) && !relevant(tags[0]))
  {
    var s := [x] + tags;
    assert s[1..] == tags;
    NeighboursShift(s, relevant, 1);
    if tags != [] && !relevant(x) && !relevant(tags[0]) {
      assert AreNeighbours(s, relevant, 0);
    }
  }

  /** Removing an irrelevant tag everywhere brings no two irrelevant tags together that were apart. */
  lemma {:induction false} DroppedApart(tags: Tags, relevant: string -> bool, tag: string)
    requires !relevant(tag) && !HasNeighbours(tags, relevant)
    ensures !HasNeighbours(Dropped(tags, tag), relevant)
    ensures tags != [] && relevant(tags[0]) ==> Dropped(tags, tag) != [] && Dropped(tags, tag)[0] == tags[0]
  {
    hide HasNeighbours, Dropped;
    if tags != [] {
      var rest := tags[1..];
      assert tags == [tags[0]] + rest;
      NeighboursCons(tags[0], rest, relevant);
      DroppedApart(rest, relevant, tag);
      DroppedFirst(tags, tag);
      var d := Dropped(rest, tag);
      NeighboursCons(tags[0], d, relevant);
      assert [] + d == d;
      if rest == [] {
        DroppedNone(rest, tag);
      }
    } else {
      assert Dropped(tags, tag) == [] by { DroppedNone(tags, tag); }
    }
  }

  /** With irrelevant tags apart from each other, every one of them is looked at. */
  lemma {:induction false} ApartIsCleaned(tags: Tags, relevant: string -> bool, i: nat)
    requires i <= |tags| && AllRelevant(tags[..i], relevant) && !HasNeighbours(tags[i..], relevant)
    ensures AllRelevant(CleanLive(tags, relevant, i), relevant)
    decreases |tags| - i
  {
    hide HasNeighbours, Dropped;
    if i == |tags| {
      assert tags[..i] == tags;
    } else {
      var x, rest := tags[i], tags[i + 1..];
      assert tags[i..] == [x] + rest;
      NeighboursCons(x, rest, relevant);
      if relevant(x) {
        assert tags[..i + 1] == tags[..i] + [x];
        ApartIsCleaned(tags, relevant, i + 1);
      } else {
        DroppedShorter(tags, x);
        var d, r := Dropped(tags, x), Dropped(rest, x);
        assert d == tags[..i] + r by { DroppedAfter(tags, relevant, i); }
        DroppedApart(rest, relevant, x);
        if rest == [] {
          assert r == [] by { DroppedNone(rest, x); }
          assert d == tags[..i] && CleanLive(d, relevant, i + 1) == d;
        } else {
          assert r == [r[0]] + r[1..];
          NeighboursCons(r[0], r[1..], relevant);
          assert d[..i + 1] == tags[..i] + [r[0]] && d[i + 1..] == r[1..];
          ApartIsCleaned(d, relevant, i + 1);
        }
      }
    }
  }

  lemma DroppedAfter(tags: Tags, relevant: string -> bool, i: nat)
    requires i < |tags| && AllRelevant(tags[..i], relevant) && !relevant(tags[i])
    ensures Dropped(tags, tags[i]) == tags[..i] + Dropped(tags[i + 1..], tags[i])
  {
    hide Dropped;
    assert tags == tags[..i] + tags[i..];
    DroppedConcat(tags[..i], tags[i..], tags[i]);
    DroppedNone(tags[..i], tags[i]);
    DroppedFirst(tags[i..], tags[i]);
    assert tags[i..][1..] == tags[i + 1..];
    assert [] + Dropped(tags[i + 1..], tags[i]) == Dropped(tags[i + 1..], tags[i]);
  }

  /**
   The intent of the clean-up, that no irrelevant tag stays, is met when no two irrelevant tags stand
   next to each other in the list, and, if no tag is repeated, only then.
   */
  lemma CleanUpCompleteIff(tags: Tags, relevant: string -> bool)
    ensures !HasNeighbours(tags, relevant) ==> AllRelevant(CleanLive(tags, relevant, 0), relevant)
    ensures NoDuplicates(tags) ==>
              (AllRelevant(CleanLive(tags, relevant, 0), relevant) <==> !HasNeighbours(tags, relevant))
  {
    hide HasNeighbours, NoDuplicates, CleanLive;
    assert tags[0..] == tags && tags[..0] == [];
    if !HasNeighbours(tags, relevant) {
      ApartIsCleaned(tags, relevant, 0);
    }
    if NoDuplicates(tags) {
      CleanLiveIsStaying(tags, relevant, 0);
      assert [] + Staying(tags, relevant) == Staying(tags, relevant);
      StayingRelevantIff(tags, relevant);
    }
  }

  /** With a repeated tag the clean-up can be complete although two irrelevant tags are neighbours. */
  lemma RepeatedTagHelps(a: string, b: string, x: string, y: string, relevant: string -> bool)
    requires a != b && x != y && relevant(a) && relevant(b) && !relevant(x) && !relevant(y)
    ensures HasNeighbours([a, x, b, x, y], relevant) && CleanLive([a, x, b, x, y], relevant, 0) == [a, b]
  {
    var tags := [a, x, b, x, y];
    assert AreNeighbours(tags, relevant, 3);
    DropTwo(a, b, x, y);
    var rest := [a, b, y];
    assert CleanLive([a, b], relevant, 3) == [a, b];
    assert CleanLive(rest, relevant, 2) == CleanLive([a, b], relevant, 3);
    assert CleanLive(tags, relevant, 1) == CleanLive(rest, relevant, 2);
    assert CleanLive(tags, relevant, 0) == CleanLive(tags, relevant, 1);
  }

  lemma DropTwo(a: string, b: string, x: string, y: string)
    requires a != x && b != x && x != y && a != y && b != y
    ensures Dropped([a, x, b, x, y], x) == [a, b, y] && Dropped([a, b, y], y) == [a, b]
  {
    var tags := [a, x, b, x, y];
    assert tags == [a, x, b] + [x, y] && [a, x, b] == [a] + [x, b];
    DroppedConcat([a, x, b], [x, y], x);
    DroppedConcat([a], [x, b], x);
    DroppedFirst([x, b], x);
    DroppedFirst([x, y], x);
    assert [x, b][1..] == [b] && [x, y][1..] == [y];
    DroppedNone([a], x);
    DroppedNone([b], x);
    DroppedNone([y], x);
    assert [a, b, y] == [a, b] + [y];
    DroppedConcat([a, b], [y], y);
    DroppedNone([a, b], y);
    DroppedFirst([y], y);
  }

  // ----- What the clean-up records -----

  /** The tags the loop removes, in order. */
  function Cleaned(tags: Tags, relevant: string -> bool, i: nat): Tags
    decreases |tags| - i
  {
    if i >= |tags| then []
    else if relevant(tags[i]) then Cleaned(tags, relevant, i + 1)
    else
      DroppedShorter(tags, tags[i]);
      [tags[i]] + Cleaned(Dropped(tags, tags[i]), relevant, i + 1)
  }

  /** The tags that stay are those that are not recorded as cleaned up, and none recorded is relevant. */
  lemma {:induction false} CleanedIsGone(tags: Tags, relevant: string -> bool, i: nat, x: string)
    ensures x in CleanLive(tags, relevant, i) <==> x in tags && x !in Cleaned(tags, relevant, i)
    ensures x in Cleaned(tags, relevant, i) ==> x in tags && !relevant(x)
    decreases |tags| - i
  {
    if i < |tags| {
      if relevant(tags[i]) {
        CleanedIsGone(tags, relevant, i + 1, x);
      } else {
        DroppedShorter(tags, tags[i]);
        CleanedIsGone(Dropped(tags, tags[i]), relevant, i + 1, x);
      }
    }
  }

  /** Two irrelevant tags: the second one stays. */
  lemma CleanUpMissesOne()
    ensures CleanLive(["unreliable|a", "unreliable|b"], (t: string) => false, 0) == ["unreliable|b"]
  {
    var tags, never := ["unreliable|a", "unreliable|b"], (t: string) => false;
    assert tags[0] == "unreliable|a" && tags[1] == "unreliable|b" && tags[0] != tags[1];
    CleanLiveIsStaying(tags, never, 0);
    assert tags[0..] == tags && tags[2..] == [];
    assert Staying(tags, never) == [tags[1]] + Staying(tags[2..], never);
  }

  method CleanUpTag(tags: TagsConfigWithChangelog, kind: string, test: string, tag: string)
    modifies tags, tags.lifecycle
    ensures tags.lifecycle.conf == TagsConfigs.RemoveTag(old(tags.lifecycle.conf), kind, test, tag)
    ensures tags.added == old(tags.added) && tags.removed == old(tags.removed)
    ensures tags.cleanedUp == CleanUpPut(old(tags.cleanedUp), kind, test, tag)
  {
    var _ := tags.lifecycle.RemoveTag(kind, test, tag);
    tags.cleanedUp := CleanUpPut(tags.cleanedUp, kind, test, tag);
  }

  function CleanUpPut(log: CleanUpLog, kind: string, test: string, tag: string): CleanUpLog {
    var tests := if kind in log then log[kind] else map[];
    var tags := if test in tests then tests[test] else [];
    log[kind := tests[test := tags + [tag]]]
  }

  function CleanUpPutAll(log: CleanUpLog, kind: string, test: string, tags: Tags): CleanUpLog
    decreases |tags|
  {
    if tags == [] then log else CleanUpPutAll(CleanUpPut(log, kind, test, tags[0]), kind, test, tags[1..])
  }

  /** The inner loop of `clean_up_tags`, over the live tag list of one test pattern. */
  method CleanUpTagsOf(tags: TagsConfigWithChangelog, kind: string, test: string, relevant: string -> bool)
    modifies tags, tags.lifecycle
    ensures GetTags(tags.lifecycle.conf, kind, test) == CleanLive(GetTags(old(tags.lifecycle.conf), kind, test), relevant, 0)
    ensures forall k, t :: k != kind || t != test ==>
              GetTags(tags.lifecycle.conf, k, t) == GetTags(old(tags.lifecycle.conf), k, t)
    // What is removed is recorded apart from the two logs, which are the difference no longer, unless nothing is removed.
    ensures var cleaned := Cleaned(GetTags(old(tags.lifecycle.conf), kind, test), relevant, 0);
            && tags.cleanedUp == CleanUpPutAll(old(tags.cleanedUp), kind, test, cleaned)
            && (old(tags.Valid()) ==> (tags.Valid() <==> cleaned == []))
    ensures tags.added == old(tags.added) && tags.removed == old(tags.removed)
  {
    hide LogsDifference, Cleaned, CleanLive;
    var i := 0;
    ghost var conf := tags.lifecycle.conf;
    ghost var first := GetTags(conf, kind, test);
    ghost var all := Cleaned(first, relevant, 0);
    ghost var log := CleanUpPutAll(tags.cleanedUp, kind, test, all);
    while i < |GetTags(tags.lifecycle.conf, kind, test)|
      invariant CleanLive(first, relevant, 0) == CleanLive(GetTags(tags.lifecycle.conf, kind, test), relevant, i)
      invariant log == CleanUpPutAll(tags.cleanedUp, kind, test, Cleaned(GetTags(tags.lifecycle.conf, kind, test), relevant, i))
      invariant tags.added == old(tags.added) && tags.removed == old(tags.removed)
      invariant all == [] ==> tags.lifecycle.conf == conf && Cleaned(first, relevant, i) == []
      invariant forall k, t :: k != kind || t != test ==>
                  GetTags(tags.lifecycle.conf, k, t) == GetTags(old(tags.lifecycle.conf), k, t)
      decreases |GetTags(tags.lifecycle.conf, kind, test)| - i
    {
      ghost var live := GetTags(tags.lifecycle.conf, kind, test);
      var tag := GetTags(tags.lifecycle.conf, kind, test)[i];
      CleanStep(live, relevant, i);
      if !relevant(tag) {
        ghost var before := tags.lifecycle.conf;
        CleanUpTag(tags, kind, test, tag);
        RemoveTagGetTags(before, kind, test, tag);
        DroppedShorter(live, tag);
        assert ([tag] + Cleaned(Dropped(live, tag), relevant, i + 1))[1..] == Cleaned(Dropped(live, tag), relevant, i + 1);
      }
      i := i + 1;
    }
    CleanEnd(GetTags(tags.lifecycle.conf, kind, test), relevant, i);
    if all != [] && old(tags.Valid()) {
      CleanedIsGone(first, relevant, 0, all[0]);
      CleanUpBreaksLogs(tags.lifecycle.original, old(tags.View()), tags.lifecycle.conf, kind, test, all[0]);
    }
  }

  lemma CleanStep(tags: Tags, relevant: string -> bool, i: nat)
    requires i < |tags|
    ensures relevant(tags[i]) ==>
              && CleanLive(tags, relevant, i) == CleanLive(tags, relevant, i + 1)
              && Cleaned(tags, relevant, i) == Cleaned(tags, relevant, i + 1)
    ensures !relevant(tags[i]) ==>
              && CleanLive(tags, relevant, i) == CleanLive(Dropped(tags, tags[i]), relevant, i + 1)
              && Cleaned(tags, relevant, i) == [tags[i]] + Cleaned(Dropped(tags, tags[i]), relevant, i + 1)
  {
  }

  lemma CleanEnd(tags: Tags, relevant: string -> bool, i: nat)
    requires i >= |tags|
    ensures CleanLive(tags, relevant, i) == tags && Cleaned(tags, relevant, i) == []
  {
  }

  /** A tag that goes without an entry in the logs leaves them wrong. */
  lemma CleanUpBreaksLogs(initial: Conf, c: Change, conf: Conf, kind: string, test: string, tag: string)
    requires LogsDifference(initial, c) && Has(c.conf, kind, test, tag) && !Has(conf, kind, test, tag)
    ensures !LogsDifference(initial, c.(conf := conf))
  {
    assert InLog(c.added, kind, test, tag) <==> Has(c.conf, kind, test, tag) && !Has(initial, kind, test, tag);
    assert InLog(c.removed, kind, test, tag) <==> Has(initial, kind, test, tag) && !Has(c.conf, kind, test, tag);
  }

  /** `clean_up_test`: the pattern goes, and is recorded with no tags. */
  method CleanUpTest(tags: TagsConfigWithChangelog, kind: string, test: string)
    modifies tags, tags.lifecycle
    ensures forall k, t, x :: tags.Tagged(k, t, x) <==> old(tags.Tagged(k, t, x)) && !(k == kind && t == test)
    ensures tags.added == old(tags.added) && tags.removed == old(tags.removed)
    ensures kind in tags.cleanedUp && test in tags.cleanedUp[kind] && tags.cleanedUp[kind][test] == []
    ensures forall k, t :: k in old(tags.cleanedUp) && t in old(tags.cleanedUp)[k] && (k != kind || t != test) ==>
              && k in tags.cleanedUp && t in tags.cleanedUp[k]
              && tags.cleanedUp[k][t] == old(tags.cleanedUp)[k][t]
  {
    tags.lifecycle.RemoveTestPattern(kind, test);
    var tests := if kind in tags.cleanedUp then tags.cleanedUp[kind] else map[];
    tags.cleanedUp := tags.cleanedUp[kind := tests[test := []]];
  }

  lemma RemoveTagGetTags(conf: Conf, kind: string, test: string, tag: string)
    requires Has(conf, kind, test, tag)
    ensures var r := TagsConfigs.RemoveTag(conf, kind, test, tag);
            && GetTags(r, kind, test) == Dropped(GetTags(conf, kind, test), tag)
            && forall k, t :: k != kind || t != test ==> GetTags(r, k, t) == GetTags(conf, k, t)
  {
  }
}
