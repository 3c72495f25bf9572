/** Whole runs of the fan-out, whatever the interleaving: who claimed and wrote what, and how
    long a run can be. */
module ParallelRuns {
  import opened Wrappers
  import opened ParallelExec

  function ButLast(run: seq<Action>): seq<Action>
    requires run != []
  {
    run[..|run| - 1]
  }

  /** The state a run leads to, when each of its actions is enabled where it happens. */
  function Run(items: seq<Item>, spawn: Spawner, workers: nat, run: seq<Action>): Option<State> {
    if run == [] then Some(Initial(|items|, workers))
    else
      var p, a := Run(items, spawn, workers, ButLast(run)), run[|run| - 1];
      if p.Some? && |p.value.slots| == |items| && Enabled(p.value, a) then Some(Step(items, spawn, p.value, a))
      else None
  }

  lemma {:induction false} ReachableInv(items: seq<Item>, spawn: Spawner, workers: nat, run: seq<Action>, s: State)
    requires Run(items, spawn, workers, run) == Some(s)
    ensures Inv(items, spawn, s) && |s.pcs| == workers
  {
    if run == [] {
      InitialInv(items, spawn, workers);
    } else {
      var p := Run(items, spawn, workers, ButLast(run)).value;
      ReachableInv(items, spawn, workers, ButLast(run), p);
      StepInv(items, spawn, p, run[|run| - 1]);
    }
  }

  /** How often index `i` is claimed and how often slot `i` is written during a run. */
  function Claims(items: seq<Item>, spawn: Spawner, workers: nat, run: seq<Action>, i: nat): nat {
    if run == [] then 0
    else
      var p := Run(items, spawn, workers, ButLast(run));
      Claims(items, spawn, workers, ButLast(run), i) +
      if p.Some? && run[|run| - 1].Claim? && p.value.next == i then 1 else 0
  }

  function Writes(items: seq<Item>, spawn: Spawner, workers: nat, run: seq<Action>, i: nat): nat {
    if run == [] then 0
    else
      var p, a := Run(items, spawn, workers, ButLast(run)), run[|run| - 1];
      Writes(items, spawn, workers, ButLast(run), i) +
      if p.Some? && a.Fill? && a.worker < |p.value.pcs| && p.value.pcs[a.worker] == Claimed(i) then 1 else 0
  }

  /** The last step of a run. */
  lemma {:induction false} LastStep(items: seq<Item>, spawn: Spawner, workers: nat, run: seq<Action>, s: State)
    returns (p: State)
    requires Run(items, spawn, workers, run) == Some(s) && run != []
    ensures Run(items, spawn, workers, ButLast(run)) == Some(p)
    ensures Inv(items, spawn, p) && Enabled(p, run[|run| - 1])
    ensures s == Step(items, spawn, p, run[|run| - 1])
  {
    p := Run(items, spawn, workers, ButLast(run)).value;
    ReachableInv(items, spawn, workers, ButLast(run), p);
  }

  /** The counter has passed exactly the indices that were claimed, each of them once. */
  lemma {:induction false} ClaimBooks(
    items: seq<Item>, spawn: Spawner, workers: nat, run: seq<Action>, s: State, i: nat)
    requires Run(items, spawn, workers, run) == Some(s)
    ensures Claims(items, spawn, workers, run, i) == if i < s.next then 1 else 0
  {
    if run != [] {
      var p := LastStep(items, spawn, workers, run, s);
      ClaimBooks(items, spawn, workers, ButLast(run), p, i);
    }
  }

  /** Exactly the filled slots were written, each of them once. */
  lemma {:induction false} WriteBooks(
    items: seq<Item>, spawn: Spawner, workers: nat, run: seq<Action>, s: State, i: nat)
    requires Run(items, spawn, workers, run) == Some(s) && i < |items|
    ensures |s.slots| == |items|
    ensures Writes(items, spawn, workers, run, i) == if s.slots[i].Some? then 1 else 0
  {
    if run != [] {
      var p := LastStep(items, spawn, workers, run, s);
      WriteBooks(items, spawn, workers, ButLast(run), p, i);
    }
  }

  /** Every step is a claim, counted by the counter, or a write, counted by the slots. */
  lemma {:induction false} StepBooks(items: seq<Item>, spawn: Spawner, workers: nat, run: seq<Action>, s: State)
    requires Run(items, spawn, workers, run) == Some(s)
    ensures |run| == s.next + Filled(s.slots)
  {
    if run == [] {
      FilledBounds(s.slots);
    } else {
      var p := LastStep(items, spawn, workers, run, s);
      StepBooks(items, spawn, workers, ButLast(run), p);
      var a := run[|run| - 1];
      if a.Fill? {
        var j := p.pcs[a.worker].index;
        FilledAfter(p.slots, j, RunOne(items[j], spawn));
      }
    }
  }

  /** Every run is at most `2n + workers` steps long, and a run after which all workers
      have stopped has exactly that many: `n + workers` claims and `n` writes, one claim
      and one write for each item. */
  lemma {:induction false} RunLength(items: seq<Item>, spawn: Spawner, workers: nat, run: seq<Action>, s: State)
    requires Run(items, spawn, workers, run) == Some(s) && workers > 0
    ensures |run| <= 2 * |items| + workers
    ensures |run| == 2 * |items| + workers <==> AllStopped(s)
    ensures AllStopped(s) ==> forall i :: 0 <= i < |items| ==>
              Claims(items, spawn, workers, run, i) == 1 && Writes(items, spawn, workers, run, i) == 1
  {
    ReachableInv(items, spawn, workers, run, s);
    StepBooks(items, spawn, workers, run, s);
    FilledBounds(s.slots);
    StoppedAtMost(s.pcs);
    if AllStopped(s) {
      StoppedIsSequential(items, spawn, s);
      forall i | 0 <= i < |items|
        ensures Claims(items, spawn, workers, run, i) == 1 && Writes(items, spawn, workers, run, i) == 1
      {
        ClaimBooks(items, spawn, workers, run, s, i);
        WriteBooks(items, spawn, workers, run, s, i);
      }
    }
  }
}
