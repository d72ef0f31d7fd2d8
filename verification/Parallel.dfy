/**
 The protocol of `parallel_process` in buildscripts/linter/parallel.py, as a state machine.

 The workers and the main thread take turns in any order. Each turn is one of the steps between
 which another thread may run: a test of the event, an access to the queue, a call of the work
 function, taking or releasing the lock, writing the result, setting the event. A schedule says
 whose turn it is; a thread that cannot move lets its turn pass.
 */
module Parallel {
  import opened Options
  import opened Sequences

  /** What the work function does on an item. */
  datatype Verdict = Passes | Fails | Raises

  /** Where a worker is; the item it works on, if any. A worker dies when the work function raises. */
  datatype Worker =
    | NotStarted
    | Check
    | Take
    | Running(item: nat)
    | WantLock(item: nat)
    | HasLock(item: nat)
    | Release(item: nat)
    | SignalFailure
    | SignalEmpty
    | Done
    | Dead(item: nat)

  datatype Main = Starting(started: nat) | Waiting | Joining(joined: nat) | Returned(value: bool)

  /**
   Items are numbered in the order they were put into the queue. The last two fields are history:
   the items the work function has finished, in order, and for each worker how many items it took
   after the event had been set.
   */
  datatype State = State(
    queue: seq<nat>,
    event: bool,
    result: bool,
    lock: Option<nat>,
    workers: seq<Worker>,
    main: Main,
    finished: seq<nat>,
    late: seq<nat>)

  datatype Actor = MainThread | WorkerThread(id: nat)

  function Initial(n: nat, cpus: nat): State {
    State(seq(n, i => i), false, true, None, seq(cpus, _ => NotStarted), Starting(0), [], seq(cpus, _ => 0))
  }

  function Move(s: State, w: nat, pc: Worker): State
    requires w < |s.workers|
  {
    s.(workers := s.workers[w := pc])
  }

  function StepWorker(items: seq<Verdict>, s: State, w: nat): State
    requires w < |s.workers| == |s.late|
  {
    match s.workers[w]
    case NotStarted => s
    case Check => Move(s, w, if s.event then Done else Take)
    case Take =>
      if s.queue == [] then Move(s, w, SignalEmpty)
      else Move(s, w, Running(s.queue[0])).(
             queue := s.queue[1..],
             late := if s.event then s.late[w := s.late[w] + 1] else s.late)
    case Running(i) =>
      if i >= |items| then s
      else
        Move(s, w, match items[i]
                   case Passes => Check
                   case Fails => WantLock(i)
                   case Raises => Dead(i)).(finished := s.finished + [i])
    case WantLock(i) => if s.lock.None? then Move(s, w, HasLock(i)).(lock := Some(w)) else s
    case HasLock(i) => Move(s, w, Release(i)).(result := false)
    case Release(i) => Move(s, w, SignalFailure).(lock := None)
    case SignalFailure => Move(s, w, Done).(event := true)
    case SignalEmpty => Move(s, w, Done).(event := true)
    case Done => s
    case Dead(i) => s
  }

  predicate HasLeft(pc: Worker) {
    pc.Done? || pc.Dead?
  }

  function StepMain(s: State): State {
    match s.main
    case Starting(k) =>
      if k < |s.workers| then Move(s, k, Check).(main := Starting(k + 1)) else s.(main := Waiting)
    case Waiting => if s.event then s.(main := Joining(0)) else s
    case Joining(k) =>
      if k >= |s.workers| then s.(main := Returned(s.result))
      else if HasLeft(s.workers[k]) then s.(main := Joining(k + 1))
      else s
    case Returned(_) => s
  }

  function Step(items: seq<Verdict>, s: State, a: Actor): (r: State)
    requires |s.workers| == |s.late|
    ensures |r.workers| == |r.late| == |s.workers|
  {
    match a
    case MainThread => StepMain(s)
    case WorkerThread(w) => if w < |s.workers| then StepWorker(items, s, w) else s
  }

  /** The state after a schedule, from the initial state. */
  function Run(items: seq<Verdict>, cpus: nat, schedule: seq<Actor>): (s: State)
    ensures |s.workers| == |s.late| == cpus
  {
    if schedule == [] then Initial(|items|, cpus)
    else Step(items, Run(items, cpus, schedule[..|schedule| - 1]), schedule[|schedule| - 1])
  }

  // ----- Items -----

  /** How many items have been taken from the queue. */
  function Taken(items: seq<Verdict>, s: State): int {
    |items| - |s.queue|
  }

  ghost predicate InFlight(s: State, i: nat) {
    exists w :: 0 <= w < |s.workers| && s.workers[w] == Running(i)
  }

  /** The queue holds the items not taken yet, in order. */
  ghost predicate QueueInOrder(items: seq<Verdict>, s: State) {
    |s.queue| <= |items| && forall j :: 0 <= j < |s.queue| ==> s.queue[j] == Taken(items, s) + j
  }

  /** Each item taken is in flight at one worker or finished once, and not both. */
  ghost predicate ItemsConserved(items: seq<Verdict>, s: State) {
    && QueueInOrder(items, s)
    && NoDuplicates(s.finished)
    && (forall i :: i in s.finished ==> i < Taken(items, s))
    && (forall i :: 0 <= i < Taken(items, s) ==> i in s.finished || InFlight(s, i))
    && (forall w :: 0 <= w < |s.workers| && s.workers[w].Running? ==>
          s.workers[w].item < Taken(items, s) && s.workers[w].item !in s.finished)
    && (forall v, w :: 0 <= v < w < |s.workers| && s.workers[v].Running? && s.workers[w].Running? ==>
          s.workers[v].item != s.workers[w].item)
  }

  /** The two states differ in no item. */
  ghost predicate SameItems(s: State, t: State) {
    && t.queue == s.queue && t.finished == s.finished && |t.workers| == |s.workers|
    && forall w :: 0 <= w < |s.workers| ==>
         t.workers[w] == s.workers[w] || (!t.workers[w].Running? && !s.workers[w].Running?)
  }

  lemma SameItemsConserved(items: seq<Verdict>, s: State, t: State)
    requires ItemsConserved(items, s) && SameItems(s, t)
    ensures ItemsConserved(items, t)
  {
    forall i: nat | InFlight(s, i)
      ensures InFlight(t, i)
    {
      var w :| 0 <= w < |s.workers| && s.workers[w] == Running(i);
      assert t.workers[w] == Running(i);
    }
  }

  lemma TakeConserves(items: seq<Verdict>, s: State, w: nat)
    requires ItemsConserved(items, s) && w < |s.workers| == |s.late| && s.workers[w] == Take && s.queue != []
    ensures ItemsConserved(items, StepWorker(items, s, w))
  {
    var t, i := StepWorker(items, s, w), s.queue[0];
    assert i == Taken(items, s);
    forall j: nat | j < Taken(items, t)
      ensures j in t.finished || InFlight(t, j)
    {
      if j == i {
        assert t.workers[w] == Running(j);
      } else if j !in s.finished {
        var v :| 0 <= v < |s.workers| && s.workers[v] == Running(j);
        assert t.workers[v] == Running(j);
      }
    }
  }

  lemma FinishConserves(items: seq<Verdict>, s: State, w: nat)
    requires ItemsConserved(items, s) && w < |s.workers| == |s.late| && s.workers[w].Running?
    ensures ItemsConserved(items, StepWorker(items, s, w))
  {
    var t, i := StepWorker(items, s, w), s.workers[w].item;
    assert i < |items|;
    forall j: nat | j < Taken(items, t)
      ensures j in t.finished || InFlight(t, j)
    {
      if j != i && j !in s.finished {
        var v :| 0 <= v < |s.workers| && s.workers[v] == Running(j);
        assert t.workers[v] == Running(j);
      }
    }
  }

  lemma ItemsStep(items: seq<Verdict>, s: State, a: Actor)
    requires |s.workers| == |s.late| && ItemsConserved(items, s) && MainInOrder(s)
    ensures ItemsConserved(items, Step(items, s, a))
  {
    hide ItemsConserved;
    var t := Step(items, s, a);
    if a.WorkerThread? && a.id < |s.workers| && s.workers[a.id].Take? && s.queue != [] {
      TakeConserves(items, s, a.id);
    } else if a.WorkerThread? && a.id < |s.workers| && s.workers[a.id].Running? {
      FinishConserves(items, s, a.id);
    } else {
      SameItemsConserved(items, s, t);
    }
  }

  // ----- The main thread -----

  /** Workers are started in order, and joined only after the event. */
  ghost predicate MainInOrder(s: State) {
    match s.main
    case Starting(k) => k <= |s.workers| && forall w :: 0 <= w < |s.workers| ==> (s.workers[w].NotStarted? <==> w >= k)
    case Waiting => forall w :: 0 <= w < |s.workers| ==> !s.workers[w].NotStarted?
    case Joining(k) =>
      && k <= |s.workers| && s.event
      && (forall w :: 0 <= w < |s.workers| ==> !s.workers[w].NotStarted?)
      && (forall w :: 0 <= w < k ==> HasLeft(s.workers[w]))
    case Returned(b) => s.event && b == s.result && forall w :: 0 <= w < |s.workers| ==> HasLeft(s.workers[w])
  }

  /** A worker's step touches no other worker; it never unstarts a worker or moves one that has left. */
  lemma WorkerFrame(items: seq<Verdict>, s: State, w: nat)
    requires w < |s.workers| == |s.late|
    ensures var t := StepWorker(items, s, w);
            && t.main == s.main && |t.workers| == |s.workers| == |t.late|
            && (forall v :: 0 <= v < |s.workers| && v != w ==> t.workers[v] == s.workers[v])
            && (t.workers[w].NotStarted? <==> s.workers[w].NotStarted?)
            && (HasLeft(s.workers[w]) || s.workers[w].NotStarted? ==> t == s)
            && (s.event ==> t.event)
  {
    match s.workers[w] {
      case Take =>
      case Running(i) =>
      case WantLock(i) =>
      case _ =>
    }
  }

  lemma MainStepsMain(s: State)
    requires MainInOrder(s)
    ensures MainInOrder(StepMain(s))
  {
  }

  lemma WorkerKeepsMain(items: seq<Verdict>, s: State, w: nat)
    requires w < |s.workers| == |s.late| && MainInOrder(s)
    ensures MainInOrder(StepWorker(items, s, w))
  {
    hide StepWorker;
    WorkerFrame(items, s, w);
  }

  lemma MainStep(items: seq<Verdict>, s: State, a: Actor)
    requires |s.workers| == |s.late| && MainInOrder(s)
    ensures MainInOrder(Step(items, s, a))
  {
    hide StepWorker, StepMain, MainInOrder;
    match a
    case MainThread => MainStepsMain(s);
    case WorkerThread(w) => if w < |s.workers| { WorkerKeepsMain(items, s, w); }
  }

  // ----- Outcomes -----

  predicate IsFailing(pc: Worker) {
    pc.WantLock? || pc.HasLock? || pc.Release?
  }

  /** What each worker knows at its place. */
  predicate WorkerKnows(items: seq<Verdict>, s: State, w: nat)
    requires w < |s.workers|
  {
    var pc := s.workers[w];
    && (IsFailing(pc) ==> pc.item in s.finished && pc.item < |items| && items[pc.item] == Fails)
    && (pc.Release? || pc.SignalFailure? ==> !s.result)
    && (pc.SignalEmpty? ==> s.queue == [])
    && (pc.Done? ==> s.event)
    && (pc.Dead? ==> pc.item in s.finished && pc.item < |items| && items[pc.item] == Raises)
    && (s.lock == Some(w) <==> pc.HasLock? || pc.Release?)
  }

  /** The failure of item `i` has been written into the result, or its worker is about to write it. */
  ghost predicate FailureKnown(s: State, i: nat) {
    !s.result || exists w :: 0 <= w < |s.workers| && (s.workers[w] == WantLock(i) || s.workers[w] == HasLock(i))
  }

  /** The failure of item `i` has led to the event, or its worker is on the way to set it. */
  ghost predicate FailureSignalled(s: State) {
    s.event || exists w :: 0 <= w < |s.workers| && (IsFailing(s.workers[w]) || s.workers[w].SignalFailure?)
  }

  ghost predicate OutcomesKnown(items: seq<Verdict>, s: State) {
    && (forall w :: 0 <= w < |s.workers| ==> WorkerKnows(items, s, w))
    && (s.lock.Some? ==> s.lock.value < |s.workers|)
    && (!s.result ==> exists i :: i in s.finished && i < |items| && items[i] == Fails)
    && (s.event ==> s.queue == [] || !s.result)
    && (forall i :: i in s.finished && i < |items| && items[i] == Fails ==> FailureKnown(s, i) && FailureSignalled(s))
  }

  lemma KnowsOwnStep(items: seq<Verdict>, s: State, w: nat)
    requires w < |s.workers| == |s.late| && WorkerKnows(items, s, w)
    requires s.workers[w].Running? ==> s.workers[w].item < |items|
    ensures WorkerKnows(items, StepWorker(items, s, w), w)
  {
    match s.workers[w] {
      case Running(i) => assert i in s.finished + [i];
      case _ =>
    }
  }

  lemma KnowsOtherStep(items: seq<Verdict>, s: State, w: nat, v: nat)
    requires w < |s.workers| == |s.late| && v < |s.workers| && v != w
    requires WorkerKnows(items, s, w) && WorkerKnows(items, s, v)
    ensures WorkerKnows(items, StepWorker(items, s, w), v)
  {
    var t := StepWorker(items, s, w);
    assert t.workers[v] == s.workers[v];
    assert s.finished <= t.finished;
    assert forall i :: i in s.finished ==> i in t.finished;
    assert !s.result ==> !t.result;
    assert s.queue == [] ==> t.queue == [];
  }

  lemma FailureKnownStep(items: seq<Verdict>, s: State, w: nat, i: nat)
    requires w < |s.workers| == |s.late| && FailureKnown(s, i)
    ensures FailureKnown(StepWorker(items, s, w), i)
  {
    var t := StepWorker(items, s, w);
    if s.result && t.result {
      var v :| 0 <= v < |s.workers| && (s.workers[v] == WantLock(i) || s.workers[v] == HasLock(i));
      assert t.workers[v] == WantLock(i) || t.workers[v] == HasLock(i);
    }
  }

  lemma FailureSignalledStep(items: seq<Verdict>, s: State, w: nat)
    requires w < |s.workers| == |s.late| && FailureSignalled(s)
    ensures FailureSignalled(StepWorker(items, s, w))
  {
    var t := StepWorker(items, s, w);
    if !s.event && !t.event {
      var v :| 0 <= v < |s.workers| && (IsFailing(s.workers[v]) || s.workers[v].SignalFailure?);
      assert IsFailing(t.workers[v]) || t.workers[v].SignalFailure?;
    }
  }

  lemma AllKnow(items: seq<Verdict>, s: State, w: nat)
    requires w < |s.workers| == |s.late| && OutcomesKnown(items, s) && ItemsConserved(items, s)
    ensures var t := StepWorker(items, s, w);
            forall v :: 0 <= v < |t.workers| ==> WorkerKnows(items, t, v)
  {
    hide StepWorker, WorkerKnows;
    WorkerFrame(items, s, w);
    forall v | 0 <= v < |s.workers|
      ensures WorkerKnows(items, StepWorker(items, s, w), v)
    {
      assert WorkerKnows(items, s, v) && WorkerKnows(items, s, w);
      if v == w {
        KnowsOwnStep(items, s, w);
      } else {
        KnowsOtherStep(items, s, w, v);
      }
    }
  }

  /** The only new failure is that of the worker that moved. */
  lemma NewFailure(items: seq<Verdict>, s: State, w: nat, i: nat)
    requires w < |s.workers| == |s.late|
    requires i in StepWorker(items, s, w).finished && i !in s.finished && i < |items| && items[i] == Fails
    ensures StepWorker(items, s, w).workers[w] == WantLock(i)
  {
  }

  lemma FailuresStep(items: seq<Verdict>, s: State, w: nat, i: nat)
    requires w < |s.workers| == |s.late| && OutcomesKnown(items, s)
    requires i in StepWorker(items, s, w).finished && i < |items| && items[i] == Fails
    ensures FailureKnown(StepWorker(items, s, w), i) && FailureSignalled(StepWorker(items, s, w))
  {
    hide StepWorker;
    WorkerFrame(items, s, w);
    if i in s.finished {
      FailureKnownStep(items, s, w, i);
      FailureSignalledStep(items, s, w);
    } else {
      NewFailure(items, s, w, i);
    }
  }

  lemma WorkerOutcomes(items: seq<Verdict>, s: State, w: nat)
    requires w < |s.workers| == |s.late| && OutcomesKnown(items, s) && ItemsConserved(items, s)
    ensures OutcomesKnown(items, StepWorker(items, s, w))
  {
    hide StepWorker, WorkerKnows, FailureKnown, FailureSignalled, ItemsConserved;
    AllKnow(items, s, w);
    ResultStep(items, s, w);
    forall i | i in StepWorker(items, s, w).finished && i < |items| && items[i] == Fails
      ensures FailureKnown(StepWorker(items, s, w), i) && FailureSignalled(StepWorker(items, s, w))
    {
      FailuresStep(items, s, w, i);
    }
  }

  lemma ResultStep(items: seq<Verdict>, s: State, w: nat)
    requires w < |s.workers| == |s.late| && OutcomesKnown(items, s)
    ensures var t := StepWorker(items, s, w);
            && (!t.result ==> exists i :: i in t.finished && i < |items| && items[i] == Fails)
            && (t.event ==> t.queue == [] || !t.result)
            && (t.lock.Some? ==> t.lock.value < |t.workers|)
  {
    var t := StepWorker(items, s, w);
    assert WorkerKnows(items, s, w);
    if !t.result {
      if s.result {
        var i := s.workers[w].item;
        assert i in t.finished && i < |items| && items[i] == Fails;
      } else {
        var i :| i in s.finished && i < |items| && items[i] == Fails;
        assert i in t.finished;
      }
    }
  }

  lemma MainOutcomes(items: seq<Verdict>, s: State)
    requires OutcomesKnown(items, s) && MainInOrder(s)
    ensures OutcomesKnown(items, StepMain(s))
  {
    var t := StepMain(s);
    forall v | 0 <= v < |s.workers|
      ensures WorkerKnows(items, t, v)
    {
      assert WorkerKnows(items, s, v);
    }
    forall i | i in t.finished && i < |items| && items[i] == Fails
      ensures FailureKnown(t, i) && FailureSignalled(t)
    {
      assert FailureKnown(s, i) && FailureSignalled(s);
      if s.result {
        var v :| 0 <= v < |s.workers| && (s.workers[v] == WantLock(i) || s.workers[v] == HasLock(i));
        assert t.workers[v] == s.workers[v];
      }
      if !s.event {
        var v :| 0 <= v < |s.workers| && (IsFailing(s.workers[v]) || s.workers[v].SignalFailure?);
        assert t.workers[v] == s.workers[v];
      }
    }
  }

  // ----- Late items -----

  /** After the event is set a worker starts at most one more item. */
  ghost predicate LateBounded(s: State) {
    && |s.late| == |s.workers|
    && forall w :: 0 <= w < |s.workers| ==>
         s.late[w] <= 1 && (s.late[w] == 1 ==> s.event && !s.workers[w].Take?) && (!s.event ==> s.late[w] == 0)
  }

  lemma LateStep(items: seq<Verdict>, s: State, a: Actor)
    requires LateBounded(s) && MainInOrder(s)
    ensures LateBounded(Step(items, s, a))
  {
    match a
    case MainThread =>
    case WorkerThread(w) =>
      if w < |s.workers| {
        match s.workers[w] {
          case Take =>
          case _ =>
        }
      }
  }

  // ----- Dead workers -----

  ghost predicate DeadApart(s: State) {
    forall v, w :: 0 <= v < w < |s.workers| && s.workers[v].Dead? && s.workers[w].Dead? ==>
      s.workers[v].item != s.workers[w].item
  }

  lemma DeadStep(items: seq<Verdict>, s: State, a: Actor)
    requires |s.workers| == |s.late| && DeadApart(s) && ItemsConserved(items, s) && OutcomesKnown(items, s)
    requires MainInOrder(s)
    ensures DeadApart(Step(items, s, a))
  {
    var t := Step(items, s, a);
    if a.WorkerThread? && a.id < |s.workers| {
      hide StepWorker, OutcomesKnown;
      var w := a.id;
      WorkerFrame(items, s, w);
      WorkerDies(items, s, w);
      forall v | 0 <= v < |s.workers| && v != w && t.workers[v].Dead? && t.workers[w].Dead?
        ensures t.workers[v].item != t.workers[w].item
      {
        OutcomesKnows(items, s, v);
      }
    }
  }

  lemma WorkerDies(items: seq<Verdict>, s: State, w: nat)
    requires w < |s.workers| == |s.late|
    ensures var t := StepWorker(items, s, w);
            t.workers[w].Dead? ==> s.workers[w] == t.workers[w] || s.workers[w] == Running(t.workers[w].item)
  {
  }

  lemma OutcomesKnows(items: seq<Verdict>, s: State, w: nat)
    requires OutcomesKnown(items, s) && w < |s.workers|
    ensures WorkerKnows(items, s, w)
  {
  }

  // ----- Every reachable state -----

  ghost predicate Invariant(items: seq<Verdict>, s: State) {
    && LateBounded(s) && ItemsConserved(items, s) && MainInOrder(s) && OutcomesKnown(items, s) && DeadApart(s)
  }

  lemma InvariantStep(items: seq<Verdict>, s: State, a: Actor)
    requires Invariant(items, s)
    ensures |s.workers| == |s.late| && Invariant(items, Step(items, s, a))
  {
    hide LateBounded, ItemsConserved, MainInOrder, OutcomesKnown, DeadApart, StepWorker, StepMain;
    LateLength(s);
    LateStep(items, s, a);
    ItemsStep(items, s, a);
    MainStep(items, s, a);
    DeadStep(items, s, a);
    match a
    case MainThread => MainOutcomes(items, s);
    case WorkerThread(w) => if w < |s.workers| { WorkerOutcomes(items, s, w); }
  }

  lemma LateLength(s: State)
    requires LateBounded(s)
    ensures |s.late| == |s.workers|
  {
  }

  lemma InitialInvariant(items: seq<Verdict>, cpus: nat)
    ensures Invariant(items, Initial(|items|, cpus))
  {
  }

  lemma {:induction false} ReachableInvariant(items: seq<Verdict>, cpus: nat, schedule: seq<Actor>)
    ensures Invariant(items, Run(items, cpus, schedule))
  {
    hide Invariant;
    if schedule == [] {
      InitialInvariant(items, cpus);
    } else {
      var before := schedule[..|schedule| - 1];
      ReachableInvariant(items, cpus, before);
      InvariantStep(items, Run(items, cpus, before), schedule[|schedule| - 1]);
    }
  }

  // ----- What is returned -----

  /**
   If `True` is returned, every item was taken and finished exactly once and none failed. If
   `False` is returned, some item that was taken failed.
   */
  lemma ReturnedValueIsRight(items: seq<Verdict>, cpus: nat, schedule: seq<Actor>)
    requires Run(items, cpus, schedule).main.Returned?
    ensures var s := Run(items, cpus, schedule);
            && (s.main.value ==>
                  && s.queue == [] && NoDuplicates(s.finished)
                  && forall i :: 0 <= i < |items| ==> i in s.finished && items[i] != Fails)
            && (!s.main.value ==> exists i :: i in s.finished && i < |items| && items[i] == Fails)
  {
    hide Run;
    ReachableInvariant(items, cpus, schedule);
    var s := Run(items, cpus, schedule);
    forall i | 0 <= i < |items| && s.main.value
      ensures i in s.finished && items[i] != Fails
    {
      assert !InFlight(s, i);
      assert i in s.finished;
    }
  }

  /** If the work function never raises, the returned value says whether it was true on all items. */
  lemma ReturnedIffAllPass(items: seq<Verdict>, cpus: nat, schedule: seq<Actor>)
    requires Run(items, cpus, schedule).main.Returned? && Raises !in items
    ensures Run(items, cpus, schedule).main.value <==> forall i :: 0 <= i < |items| ==> items[i] == Passes
  {
    hide Run;
    ReturnedValueIsRight(items, cpus, schedule);
    forall i | 0 <= i < |items|
      ensures items[i] == Passes || items[i] == Fails
    {
      assert items[i] in items;
    }
  }

  /** Items are never lost or doubled; no worker leaves before the event; at most one late item each. */
  lemma ReachableFacts(items: seq<Verdict>, cpus: nat, schedule: seq<Actor>)
    ensures var s := Run(items, cpus, schedule);
            && ItemsConserved(items, s)
            && (forall w :: 0 <= w < cpus ==> (s.workers[w].Done? ==> s.event) && s.late[w] <= 1)
  {
    hide Run, ItemsConserved;
    ReachableInvariant(items, cpus, schedule);
    var s := Run(items, cpus, schedule);
    forall w | 0 <= w < cpus
      ensures s.workers[w].Done? ==> s.event
    {
      assert WorkerKnows(items, s, w);
    }
  }
}
