/**
 Progress of `parallel_process`: runs are bounded, and they stop only when the main thread has
 returned or waits for an event that nobody is left to set. The latter happens exactly when too
 many items raise early.
 */
module Progress {
  import opened Options
  import opened Sequences
  import opened Parallel

  // ----- Every run is finite -----

  function Rank(pc: Worker): nat {
    match pc
    case NotStarted => 8
    case Check => 7
    case Take => 6
    case Running(_) => 8
    case WantLock(_) => 5
    case HasLock(_) => 4
    case Release(_) => 3
    case SignalFailure => 2
    case SignalEmpty => 2
    case Done => 0
    case Dead(_) => 0
  }

  function Ranks(workers: seq<Worker>): nat {
    if workers == [] then 0 else Rank(workers[0]) + Ranks(workers[1..])
  }

  function MainRank(m: Main, cpus: nat): int {
    match m
    case Starting(k) => 2 * cpus + 3 - k
    case Waiting => cpus + 2
    case Joining(k) => cpus + 1 - k
    case Returned(_) => 0
  }

  function Measure(s: State): int {
    3 * |s.queue| + Ranks(s.workers) + MainRank(s.main, |s.workers|)
  }

  lemma {:induction false} RanksMove(workers: seq<Worker>, w: nat, pc: Worker)
    requires w < |workers|
    ensures Ranks(workers[w := pc]) == Ranks(workers) - Rank(workers[w]) + Rank(pc)
  {
    if w > 0 {
      RanksMove(workers[1..], w - 1, pc);
      assert workers[w := pc][1..] == workers[1..][w - 1 := pc];
    } else {
      assert workers[w := pc][1..] == workers[1..];
    }
  }

  lemma WorkerDescends(items: seq<Verdict>, s: State, w: nat)
    requires w < |s.workers| == |s.late|
    ensures var t := StepWorker(items, s, w); t != s ==> Measure(t) < Measure(s)
  {
    hide Ranks;
    var t := StepWorker(items, s, w);
    WorkerFrame(items, s, w);
    assert t.workers == s.workers[w := t.workers[w]];
    RanksMove(s.workers, w, t.workers[w]);
    match s.workers[w] {
      case Take =>
      case Running(i) =>
      case _ =>
    }
  }

  lemma MainDescends(s: State)
    requires MainInOrder(s)
    ensures StepMain(s) != s ==> Measure(StepMain(s)) < Measure(s)
    ensures Measure(s) >= 0
  {
    hide Ranks;
    if s.main.Starting? && s.main.started < |s.workers| {
      RanksMove(s.workers, s.main.started, Check);
    }
  }

  lemma StepDescends(items: seq<Verdict>, s: State, a: Actor)
    requires |s.workers| == |s.late| && MainInOrder(s)
    ensures Step(items, s, a) != s ==> Measure(Step(items, s, a)) < Measure(s)
    ensures Measure(s) >= 0
  {
    hide Measure, StepWorker, StepMain, MainInOrder;
    MainDescends(s);
    if a.WorkerThread? && a.id < |s.workers| {
      WorkerDescends(items, s, a.id);
    }
  }

  /** How often a thread really moved. */
  function Moves(items: seq<Verdict>, cpus: nat, schedule: seq<Actor>): nat {
    if schedule == [] then 0
    else
      var before := schedule[..|schedule| - 1];
      Moves(items, cpus, before) +
      if Run(items, cpus, schedule) == Run(items, cpus, before) then 0 else 1
  }

  function MoveBound(items: seq<Verdict>, cpus: nat): nat {
    3 * |items| + 10 * cpus + 3
  }

  /** Whatever the schedule, the threads move only finitely often. */
  lemma {:induction false} RunsAreBounded(items: seq<Verdict>, cpus: nat, schedule: seq<Actor>)
    ensures Moves(items, cpus, schedule) + Measure(Run(items, cpus, schedule)) <= MoveBound(items, cpus)
    ensures Measure(Run(items, cpus, schedule)) >= 0
  {
    hide Measure, Step;
    if schedule == [] {
      InitialMeasure(|items|, cpus);
    } else {
      var before := schedule[..|schedule| - 1];
      RunsAreBounded(items, cpus, before);
      ReachableInvariant(items, cpus, before);
      ReachableInvariant(items, cpus, schedule);
      StepDescends(items, Run(items, cpus, before), schedule[|schedule| - 1]);
      StepDescends(items, Run(items, cpus, schedule), MainThread);
    }
  }

  lemma InitialMeasure(n: nat, cpus: nat)
    ensures Measure(Initial(n, cpus)) == 3 * n + 10 * cpus + 3
  {
    RanksAll(seq(cpus, _ => NotStarted));
  }

  lemma {:induction false} RanksAll(workers: seq<Worker>)
    requires forall w :: 0 <= w < |workers| ==> workers[w] == NotStarted
    ensures Ranks(workers) == 8 * |workers|
  {
    if workers != [] {
      RanksAll(workers[1..]);
    }
  }

  // ----- When a run stops -----

  /** No thread can move. */
  ghost predicate IsStuck(items: seq<Verdict>, s: State)
    requires |s.workers| == |s.late|
  {
    forall a :: Step(items, s, a) == s
  }

  /** The main thread waits for an event that no worker is left to set. */
  ghost predicate IsHung(s: State) {
    s.main == Waiting && !s.event && forall w :: 0 <= w < |s.workers| ==> s.workers[w].Dead?
  }

  lemma StuckWorker(items: seq<Verdict>, s: State, w: nat)
    requires Invariant(items, s) && w < |s.workers| == |s.late| && StepWorker(items, s, w) == s
    ensures s.workers[w].NotStarted? || HasLeft(s.workers[w]) || (s.workers[w].WantLock? && s.lock.Some?)
  {
    hide OutcomesKnown;
    assert s.workers[w].Running? ==> s.workers[w].item < |items|;
  }

  lemma LockHolderMoves(items: seq<Verdict>, s: State)
    requires Invariant(items, s) && |s.workers| == |s.late| && s.lock.Some? && s.lock.value < |s.workers|
    ensures StepWorker(items, s, s.lock.value) != s
  {
    assert WorkerKnows(items, s, s.lock.value);
  }

  /** A run stops only when the main thread has returned or when every worker has died before the event. */
  lemma StuckMeansReturnedOrHung(items: seq<Verdict>, cpus: nat, schedule: seq<Actor>)
    requires IsStuck(items, Run(items, cpus, schedule))
    ensures Run(items, cpus, schedule).main.Returned? || IsHung(Run(items, cpus, schedule))
  {
    var s := Run(items, cpus, schedule);
    hide Run, StepWorker, Invariant;
    ReachableInvariant(items, cpus, schedule);
    InvariantFacts(items, s);
    assert Step(items, s, MainThread) == s;
    forall w | 0 <= w < cpus
      ensures HasLeft(s.workers[w]) && (s.workers[w].Done? ==> s.event)
    {
      assert WorkerKnows(items, s, w);
      assert Step(items, s, WorkerThread(w)) == s;
      StuckWorker(items, s, w);
      if s.workers[w].WantLock? {
        assert Step(items, s, WorkerThread(s.lock.value)) == s;
        LockHolderMoves(items, s);
      }
    }
  }

  lemma InvariantFacts(items: seq<Verdict>, s: State)
    requires Invariant(items, s)
    ensures MainInOrder(s) && |s.workers| == |s.late|
    ensures forall w :: 0 <= w < |s.workers| ==> WorkerKnows(items, s, w)
    ensures s.lock.Some? ==> s.lock.value < |s.workers|
  {
  }

  /** Without exceptions and with at least one worker, a run stops only when the main thread has returned. */
  lemma StopsOnlyWhenReturned(items: seq<Verdict>, cpus: nat, schedule: seq<Actor>)
    requires cpus > 0 && Raises !in items
    requires IsStuck(items, Run(items, cpus, schedule))
    ensures Run(items, cpus, schedule).main.Returned?
  {
    hide Run, Invariant;
    var s := Run(items, cpus, schedule);
    StuckMeansReturnedOrHung(items, cpus, schedule);
    ReachableInvariant(items, cpus, schedule);
    if IsHung(s) {
      HungNeedsRaise(items, s);
    }
  }

  lemma HungNeedsRaise(items: seq<Verdict>, s: State)
    requires Invariant(items, s) && IsHung(s) && s.workers != []
    ensures Raises in items
  {
    assert WorkerKnows(items, s, 0);
    assert items[s.workers[0].item] in items;
  }

  // ----- When the main thread waits forever -----

  /** The items that raise and come before every item that fails. */
  function EarlyRaises(items: seq<Verdict>): set<nat> {
    set i: nat | i < |items| && items[i] == Raises && Fails !in items[..i]
  }

  lemma SubsetCount(a: set<nat>, b: set<nat>)
    requires a <= b
    ensures |a| <= |b|
  {
    assert b == a + (b - a);
  }

  /** In a hung state the dead workers have used up as many early raising items. */
  lemma HungUsesRaises(items: seq<Verdict>, s: State)
    requires Invariant(items, s) && IsHung(s)
    ensures |EarlyRaises(items)| >= |s.workers|
  {
    var n := |s.workers|;
    var dead := seq(n, w requires 0 <= w < n => s.workers[w].item);
    forall w | 0 <= w < n
      ensures dead[w] in EarlyRaises(items)
    {
      assert WorkerKnows(items, s, w);
      var i := dead[w];
      assert i in s.finished;
      forall j | 0 <= j < i
        ensures items[..i][j] != Fails
      {
        assert !InFlight(s, j);
        assert j in s.finished;
        assert items[j] == Fails ==> FailureSignalled(s);
      }
    }
    assert NoDuplicates(dead);
    DistinctCount(dead);
    SubsetCount(Elements(dead), EarlyRaises(items));
  }

  function Repeat(a: Actor, n: nat): (r: seq<Actor>)
    ensures |r| == n
  {
    seq(n, _ => a)
  }

  /** The first `k` workers have been started and nothing else has happened. */
  ghost predicate IsStarted(items: seq<Verdict>, s: State, k: nat) {
    && k <= |s.workers| == |s.late|
    && s.main == Starting(k) && !s.event && s.result && s.lock == None
    && |s.queue| == |items| && (forall j :: 0 <= j < |items| ==> s.queue[j] == j)
    && (forall w :: 0 <= w < k ==> s.workers[w] == Check)
  }

  lemma {:induction false} StartWorkers(items: seq<Verdict>, cpus: nat, k: nat)
    requires k <= cpus
    ensures IsStarted(items, Run(items, cpus, Repeat(MainThread, k)), k)
  {
    if k > 0 {
      StartWorkers(items, cpus, k - 1);
      var sched := Repeat(MainThread, k);
      assert sched[..|sched| - 1] == Repeat(MainThread, k - 1);
    }
  }

  /** The first `d` workers are dead, the others are about to test the event; `t` items are taken. */
  ghost predicate IsDying(items: seq<Verdict>, s: State, d: nat, t: nat) {
    && d <= |s.workers| == |s.late| && t <= |items|
    && s.main == Waiting && !s.event && s.lock == None
    && |s.queue| == |items| - t && (forall j :: 0 <= j < |s.queue| ==> s.queue[j] == t + j)
    && (forall w :: 0 <= w < d ==> s.workers[w].Dead?)
    && (forall w :: d <= w < |s.workers| ==> s.workers[w] == Check)
  }

  lemma RunExtend(items: seq<Verdict>, cpus: nat, schedule: seq<Actor>, a: Actor)
    ensures Run(items, cpus, schedule + [a]) == Step(items, Run(items, cpus, schedule), a)
  {
    assert (schedule + [a])[..|schedule + [a]| - 1] == schedule;
  }

  /** One worker tests the event, takes the next item and runs it. */
  lemma WorkerRunsItem(items: seq<Verdict>, s: State, d: nat, t: nat)
    requires IsDying(items, s, d, t) && d < |s.workers| && t < |items| && items[t] != Fails
    ensures var a := WorkerThread(d);
            var s' := Step(items, Step(items, Step(items, s, a), a), a);
            IsDying(items, s', if items[t] == Raises then d + 1 else d, t + 1)
  {
    var a := WorkerThread(d);
    var s1 := Step(items, s, a);
    assert s1.workers[d] == Take;
    var s2 := Step(items, s1, a);
    assert s2.workers[d] == Running(t);
    var s3 := Step(items, s2, a);
    assert s3.workers[d] == if items[t] == Raises then Dead(t) else Check;
  }

  lemma {:induction false} DriveToHang(items: seq<Verdict>, cpus: nat, schedule: seq<Actor>, d: nat, t: nat)
    returns (longer: seq<Actor>)
    requires IsDying(items, Run(items, cpus, schedule), d, t)
    requires |set i | i in EarlyRaises(items) && i >= t| >= cpus - d
    ensures IsHung(Run(items, cpus, longer))
    decreases |items| - t
  {
    hide Run, Step, EarlyRaises;
    var s := Run(items, cpus, schedule);
    var left := set i | i in EarlyRaises(items) && i >= t;
    if d == cpus {
      longer := schedule;
    } else {
      assert left != {};
      var i :| i in left;
      EarlyItem(items, i, t);
      var a := WorkerThread(d);
      WorkerRunsItem(items, s, d, t);
      RunExtend(items, cpus, schedule, a);
      RunExtend(items, cpus, schedule + [a], a);
      RunExtend(items, cpus, schedule + [a] + [a], a);
      EarlyNext(items, t);
      var left' := set i | i in EarlyRaises(items) && i >= t + 1;
      longer := DriveToHang(items, cpus, schedule + [a] + [a] + [a], if items[t] == Raises then d + 1 else d, t + 1);
    }
  }

  lemma EarlyItem(items: seq<Verdict>, i: nat, t: nat)
    requires i in EarlyRaises(items) && t <= i
    ensures t < |items| && items[t] != Fails
  {
    if t < i {
      assert items[t] == items[..i][t];
    }
  }

  lemma EarlyNext(items: seq<Verdict>, t: nat)
    ensures var now := set i | i in EarlyRaises(items) && i >= t;
            var next := set i | i in EarlyRaises(items) && i >= t + 1;
            |next| >= |now| - (if t < |items| && items[t] == Raises then 1 else 0)
  {
    var now := set i | i in EarlyRaises(items) && i >= t;
    var next := set i | i in EarlyRaises(items) && i >= t + 1;
    if t in now {
      assert now == next + {t};
    } else {
      assert now == next;
    }
  }

  /**
   The main thread can be left waiting forever exactly when, before the first item that fails,
   at least as many items raise as there are workers.
   */
  lemma HangsIffManyEarlyRaises(items: seq<Verdict>, cpus: nat)
    ensures (exists schedule :: IsHung(Run(items, cpus, schedule))) <==> |EarlyRaises(items)| >= cpus
  {
    hide Run, EarlyRaises, Invariant;
    if schedule :| IsHung(Run(items, cpus, schedule)) {
      ReachableInvariant(items, cpus, schedule);
      HungUsesRaises(items, Run(items, cpus, schedule));
    }
    if |EarlyRaises(items)| >= cpus {
      var sched := Repeat(MainThread, cpus);
      StartWorkers(items, cpus, cpus);
      RunExtend(items, cpus, sched, MainThread);
      assert IsDying(items, Run(items, cpus, sched + [MainThread]), 0, 0);
      assert (set i | i in EarlyRaises(items) && i >= 0) == EarlyRaises(items);
      var longer := DriveToHang(items, cpus, sched + [MainThread], 0, 0);
    }
  }
}
