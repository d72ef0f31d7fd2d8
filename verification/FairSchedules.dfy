/**
 Fair schedules of the protocol of `parallel_process`: in every round each thread gets a turn. After
 as many rounds as threads can move at all, a run has come to its end.
 */
module FairSchedules {
  import opened Parallel
  import opened Progress

  /** Every thread gets a turn. */
  predicate IsRound(round: seq<Actor>, cpus: nat) {
    MainThread in round && forall w :: 0 <= w < cpus ==> WorkerThread(w) in round
  }

  ghost predicate AreRounds(rounds: seq<seq<Actor>>, cpus: nat) {
    forall i :: 0 <= i < |rounds| ==> IsRound(rounds[i], cpus)
  }

  function Concat(rounds: seq<seq<Actor>>): seq<Actor> {
    if rounds == [] then [] else Concat(rounds[..|rounds| - 1]) + rounds[|rounds| - 1]
  }

  lemma ExtendRun(items: seq<Verdict>, cpus: nat, schedule: seq<Actor>, more: seq<Actor>)
    requires more != []
    ensures var t := schedule + more[..|more| - 1];
            && Run(items, cpus, schedule + more) == Step(items, Run(items, cpus, t), more[|more| - 1])
            && Moves(items, cpus, schedule + more) ==
               Moves(items, cpus, t) + if Run(items, cpus, schedule + more) == Run(items, cpus, t) then 0 else 1
  {
    var u := schedule + more;
    assert u[..|u| - 1] == schedule + more[..|more| - 1];
  }

  /** Turns in which nobody moves: none of the threads that had a turn can move. */
  lemma {:induction false} NobodyMoves(items: seq<Verdict>, cpus: nat, schedule: seq<Actor>, more: seq<Actor>)
    ensures Moves(items, cpus, schedule + more) >= Moves(items, cpus, schedule)
    ensures Moves(items, cpus, schedule + more) == Moves(items, cpus, schedule) ==>
              && Run(items, cpus, schedule + more) == Run(items, cpus, schedule)
              && forall a :: a in more ==> Step(items, Run(items, cpus, schedule), a) == Run(items, cpus, schedule)
    decreases |more|
  {
    if more == [] {
      assert schedule + more == schedule;
    } else {
      hide Run, Moves, Step;
      var r := more[..|more| - 1];
      assert more == r + [more[|more| - 1]];
      ExtendRun(items, cpus, schedule, more);
      NobodyMoves(items, cpus, schedule, r);
    }
  }

  lemma {:induction false} StuckStays(items: seq<Verdict>, cpus: nat, schedule: seq<Actor>, more: seq<Actor>)
    requires IsStuck(items, Run(items, cpus, schedule))
    ensures Run(items, cpus, schedule + more) == Run(items, cpus, schedule)
    decreases |more|
  {
    if more == [] {
      assert schedule + more == schedule;
    } else {
      hide Run, Moves, Step;
      ExtendRun(items, cpus, schedule, more);
      StuckStays(items, cpus, schedule, more[..|more| - 1]);
    }
  }

  /** In a round somebody moves, or nobody can. */
  lemma RoundMoves(items: seq<Verdict>, cpus: nat, schedule: seq<Actor>, round: seq<Actor>)
    requires IsRound(round, cpus)
    ensures IsStuck(items, Run(items, cpus, schedule + round)) ||
            Moves(items, cpus, schedule + round) > Moves(items, cpus, schedule)
  {
    NobodyMoves(items, cpus, schedule, round);
    var s := Run(items, cpus, schedule);
    if Moves(items, cpus, schedule + round) == Moves(items, cpus, schedule) {
      forall a
        ensures Step(items, s, a) == s
      {
        assert a.WorkerThread? && a.id < cpus ==> a in round;
      }
    }
  }

  lemma {:induction false} RoundsMove(items: seq<Verdict>, cpus: nat, rounds: seq<seq<Actor>>)
    requires AreRounds(rounds, cpus)
    ensures IsStuck(items, Run(items, cpus, Concat(rounds))) || Moves(items, cpus, Concat(rounds)) >= |rounds|
  {
    hide Run, Moves, IsStuck;
    if rounds != [] {
      var r := rounds[..|rounds| - 1];
      RoundsMove(items, cpus, r);
      RoundMoves(items, cpus, Concat(r), rounds[|rounds| - 1]);
      if IsStuck(items, Run(items, cpus, Concat(r))) {
        StuckStays(items, cpus, Concat(r), rounds[|rounds| - 1]);
      }
    }
  }

  /** After so many rounds a run has stopped: the main thread has returned, or all workers have died before the event. */
  lemma FairRunEnds(items: seq<Verdict>, cpus: nat, rounds: seq<seq<Actor>>)
    requires AreRounds(rounds, cpus) && |rounds| > MoveBound(items, cpus)
    ensures Run(items, cpus, Concat(rounds)).main.Returned? || IsHung(Run(items, cpus, Concat(rounds)))
  {
    hide Run, Moves, IsStuck, IsHung;
    RoundsMove(items, cpus, rounds);
    RunsAreBounded(items, cpus, Concat(rounds));
    StuckMeansReturnedOrHung(items, cpus, Concat(rounds));
  }

  /** If the work function never raises, the main thread returns under every fair schedule. */
  lemma FairRunReturns(items: seq<Verdict>, cpus: nat, rounds: seq<seq<Actor>>)
    requires cpus > 0 && Raises !in items
    requires AreRounds(rounds, cpus) && |rounds| > MoveBound(items, cpus)
    ensures Run(items, cpus, Concat(rounds)).main.Returned?
  {
    hide Run, Moves, IsStuck, IsHung;
    FairRunEnds(items, cpus, rounds);
    HangsIffManyEarlyRaises(items, cpus);
    assert EarlyRaises(items) == {};
  }

  ghost predicate AlwaysReturns(items: seq<Verdict>, cpus: nat) {
    forall rounds :: AreRounds(rounds, cpus) && |rounds| > MoveBound(items, cpus) ==>
      Run(items, cpus, Concat(rounds)).main.Returned?
  }

  /** The main thread returns under every fair schedule exactly when fewer early items raise than there are workers. */
  lemma AlwaysReturnsIff(items: seq<Verdict>, cpus: nat)
    ensures AlwaysReturns(items, cpus) <==> |EarlyRaises(items)| < cpus
  {
    hide Run, IsHung, EarlyRaises, IsStuck;
    HangsIffManyEarlyRaises(items, cpus);
    if |EarlyRaises(items)| < cpus {
      forall rounds | AreRounds(rounds, cpus) && |rounds| > MoveBound(items, cpus)
        ensures Run(items, cpus, Concat(rounds)).main.Returned?
      {
        FairRunEnds(items, cpus, rounds);
      }
    } else {
      var schedule :| IsHung(Run(items, cpus, schedule));
      var rounds := FairHang(items, cpus, schedule, MoveBound(items, cpus));
      assert !Run(items, cpus, Concat(rounds)).main.Returned?;
    }
  }

  function AllThreads(cpus: nat): seq<Actor> {
    seq(cpus, (w: nat) => WorkerThread(w)) + [MainThread]
  }

  lemma AllThreadsAreARound(cpus: nat)
    ensures IsRound(AllThreads(cpus), cpus)
  {
    forall w | 0 <= w < cpus
      ensures WorkerThread(w) in AllThreads(cpus)
    {
      assert AllThreads(cpus)[w] == WorkerThread(w);
    }
  }

  lemma HungIsStuck(items: seq<Verdict>, s: State)
    requires IsHung(s) && |s.workers| == |s.late|
    ensures IsStuck(items, s) && !s.main.Returned?
  {
  }

  /** A schedule that hangs, followed by as many rounds as wanted. */
  lemma {:induction false} FairHang(items: seq<Verdict>, cpus: nat, schedule: seq<Actor>, n: nat)
    returns (rounds: seq<seq<Actor>>)
    requires IsHung(Run(items, cpus, schedule))
    ensures AreRounds(rounds, cpus) && |rounds| == n + 1 && !Run(items, cpus, Concat(rounds)).main.Returned?
    ensures Run(items, cpus, Concat(rounds)) == Run(items, cpus, schedule)
  {
    hide Run, IsStuck, AllThreads;
    var all := AllThreads(cpus);
    AllThreadsAreARound(cpus);
    HungIsStuck(items, Run(items, cpus, schedule));
    StuckStays(items, cpus, schedule, all);
    if n == 0 {
      rounds := [schedule + all];
      assert forall a :: a in all ==> a in schedule + all;
      assert rounds[..0] == [] && Concat([]) + (schedule + all) == schedule + all;
    } else {
      var r := FairHang(items, cpus, schedule, n - 1);
      rounds := r + [all];
      assert rounds[..|rounds| - 1] == r;
      StuckStays(items, cpus, Concat(r), all);
    }
  }
}
