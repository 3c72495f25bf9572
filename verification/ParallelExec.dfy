/** The parallel fan-out of `gwm exec`: workers claim indices from one atomic counter and
    each fills the slot of the index it claimed. The steps of different workers interleave
    in any way; whatever the interleaving, the outcome is the sequential one. */
module ParallelExec {
  import opened Wrappers

  datatype Status = Success | Failed(code: int) | Signal | SpawnError(message: string)

  datatype Item = Item(name: string, path: string, argv: seq<string>)

  datatype Captured = Captured(name: string, status: Status, output: seq<int>)

  /** Running one program in one directory, as the operating system answers. */
  type Spawner = (string, string, seq<string>) -> (Status, seq<int>)

  function RunOne(item: Item, spawn: Spawner): Captured {
    if item.argv == [] then Captured(item.name, SpawnError("exec: no command resolved"), [])
    else
      var (status, output) := spawn(item.path, item.argv[0], item.argv[1..]);
      Captured(item.name, status, output)
  }

  function ResolveJobs(flag: Option<nat>, profile: Option<nat>, global: Option<nat>): (jobs: nat)
    ensures jobs >= 1
    ensures flag.Some? && flag.value > 0 ==> jobs == flag.value
    ensures flag.None? && profile.Some? && profile.value > 0 ==> jobs == profile.value
    ensures flag.None? && profile.None? && global.Some? && global.value > 0 ==> jobs == global.value
    ensures flag == Some(0) || (flag.None? && profile == Some(0)) || (flag.None? && profile.None? && global.None?) ==>
              jobs == 1
  {
    var n :=
      if flag.Some? then flag.value
      else if profile.Some? then profile.value
      else if global.Some? then global.value
      else 1;
    if n > 1 then n else 1
  }

  function Workers(jobs: nat, n: nat): (workers: nat)
    requires n > 0
    ensures 1 <= workers <= n
    ensures jobs > n ==> workers == n
    ensures 1 <= jobs <= n ==> workers == jobs
    ensures jobs == 0 ==> workers == 1
  {
    if jobs < 1 then 1 else if jobs > n then n else jobs
  }

  // ----- Interleaved steps -----

  datatype Pc = Ready | Claimed(index: nat) | Stopped

  datatype State = State(next: nat, pcs: seq<Pc>, slots: seq<Option<Captured>>)

  datatype Action = Claim(worker: nat) | Fill(worker: nat)

  predicate Enabled(s: State, a: Action) {
    a.worker < |s.pcs| &&
    match a
    case Claim(w) => s.pcs[w].Ready?
    case Fill(w) => s.pcs[w].Claimed? && s.pcs[w].index < |s.slots|
  }

  /** `fetch_add` with the bounds test that follows it, or the write of one slot. */
  function Step(items: seq<Item>, spawn: Spawner, s: State, a: Action): State
    requires Enabled(s, a) && |s.slots| == |items|
  {
    match a
    case Claim(w) =>
      s.(next := s.next + 1, pcs := s.pcs[w := if s.next >= |items| then Stopped else Claimed(s.next)])
    case Fill(w) =>
      var i := s.pcs[w].index;
      s.(slots := s.slots[i := Some(RunOne(items[i], spawn))], pcs := s.pcs[w := Ready])
  }

  function Initial(n: nat, workers: nat): State {
    State(0, seq(workers, _ => Ready), seq(n, _ => None))
  }

  predicate AllStopped(s: State) {
    forall pc <- s.pcs :: pc.Stopped?
  }

  // ----- The invariant -----

  function Count(pcs: seq<Pc>, pc: Pc): nat {
    multiset(pcs)[pc]
  }

  predicate Inv(items: seq<Item>, spawn: Spawner, s: State) {
    && |s.slots| == |items|
    && (forall w :: 0 <= w < |s.pcs| && s.pcs[w].Claimed? ==>
          s.pcs[w].index < |items| && s.pcs[w].index < s.next && s.slots[s.pcs[w].index].None?)
    && (forall v, w :: 0 <= v < w < |s.pcs| && s.pcs[v].Claimed? ==> s.pcs[v] != s.pcs[w])
    && (forall i :: 0 <= i < |items| ==>
          s.slots[i] == (if i < s.next && Claimed(i) !in s.pcs then Some(RunOne(items[i], spawn)) else None))
    && s.next == (if s.next < |items| then s.next else |items|) + Count(s.pcs, Stopped)
  }

  lemma {:induction false} InitialInv(items: seq<Item>, spawn: Spawner, workers: nat)
    ensures Inv(items, spawn, Initial(|items|, workers))
  {
    var pcs := Initial(|items|, workers).pcs;
    assert Stopped !in pcs;
    assert Stopped !in multiset(pcs);
  }

  lemma {:induction false} StepInv(items: seq<Item>, spawn: Spawner, s: State, a: Action)
    requires Inv(items, spawn, s) && Enabled(s, a)
    ensures Inv(items, spawn, Step(items, spawn, s, a))
  {
    match a
    case Claim(w) => ClaimInv(items, spawn, s, w);
    case Fill(w) => FillInv(items, spawn, s, w);
  }

  /** Replacing one element of a sequence. */
  lemma {:induction false} CountAfter(pcs: seq<Pc>, w: nat, pc: Pc)
    requires w < |pcs|
    ensures multiset(pcs[w := pc]) == multiset(pcs) - multiset{pcs[w]} + multiset{pc}
    ensures forall x :: x in pcs[w := pc] ==> x == pc || x in pcs
    ensures forall x :: x in pcs && x != pcs[w] ==> x in pcs[w := pc]
    ensures pc in pcs[w := pc]
  {
    forall x | x in pcs && x != pcs[w]
      ensures x in pcs[w := pc]
    {
      var v :| 0 <= v < |pcs| && pcs[v] == x;
      assert pcs[w := pc][v] == x;
    }
    assert pcs[w := pc][w] == pc;
  }

  lemma {:induction false} ClaimInv(items: seq<Item>, spawn: Spawner, s: State, w: nat)
    requires Inv(items, spawn, s) && Enabled(s, Claim(w))
    ensures Inv(items, spawn, Step(items, spawn, s, Claim(w)))
  {
    var pc := if s.next >= |items| then Stopped else Claimed(s.next);
    CountAfter(s.pcs, w, pc);
  }

  lemma {:induction false} FillInv(items: seq<Item>, spawn: Spawner, s: State, w: nat)
    requires Inv(items, spawn, s) && Enabled(s, Fill(w))
    ensures Inv(items, spawn, Step(items, spawn, s, Fill(w)))
  {
    CountAfter(s.pcs, w, Ready);
    var i := s.pcs[w].index;
    assert Claimed(i) !in s.pcs[w := Ready];
  }

  /** When every worker has stopped, every slot holds its item's own result. */
  lemma {:induction false} StoppedIsSequential(items: seq<Item>, spawn: Spawner, s: State)
    requires Inv(items, spawn, s) && AllStopped(s) && |s.pcs| > 0
    ensures forall i :: 0 <= i < |items| ==> s.slots[i] == Some(RunOne(items[i], spawn))
    ensures s.next == |items| + |s.pcs|
  {
    StoppedAtMost(s.pcs);
  }

  lemma {:induction false} StoppedAtMost(pcs: seq<Pc>)
    ensures Count(pcs, Stopped) <= |pcs|
    ensures Count(pcs, Stopped) == |pcs| <==> forall pc <- pcs :: pc.Stopped?
  {
    if pcs != [] {
      var init, last := pcs[..|pcs| - 1], pcs[|pcs| - 1];
      assert pcs == init + [last];
      assert last in pcs;
      StoppedAtMost(init);
    }
  }

  /** Until all have stopped, some worker can move, and every move is a claim or a write:
      nobody waits for anybody. */
  lemma {:induction false} NoDeadlock(items: seq<Item>, spawn: Spawner, s: State)
    requires Inv(items, spawn, s)
    ensures AllStopped(s) <==> forall a :: !Enabled(s, a)
  {
    if !AllStopped(s) {
      var w :| 0 <= w < |s.pcs| && !s.pcs[w].Stopped?;
      assert Enabled(s, if s.pcs[w].Ready? then Claim(w) else Fill(w));
    } else {
      assert forall w :: 0 <= w < |s.pcs| ==> s.pcs[w] in s.pcs;
    }
  }

  // ----- Progress -----

  /** How many slots are filled: with the counter, the measure that grows with every step. */
  function Filled(slots: seq<Option<Captured>>): nat {
    if slots == [] then 0 else Filled(slots[..|slots| - 1]) + if slots[|slots| - 1].Some? then 1 else 0
  }

  lemma {:induction false} FilledAfter(slots: seq<Option<Captured>>, i: nat, r: Captured)
    requires i < |slots| && slots[i].None?
    ensures Filled(slots[i := Some(r)]) == Filled(slots) + 1
  {
    var n := |slots| - 1;
    if i < n {
      FilledAfter(slots[..n], i, r);
      assert slots[i := Some(r)][..n] == slots[..n][i := Some(r)];
    } else {
      assert slots[i := Some(r)][..n] == slots[..n];
    }
  }

  lemma {:induction false} FilledBounds(slots: seq<Option<Captured>>)
    ensures Filled(slots) <= |slots|
    ensures (forall i :: 0 <= i < |slots| ==> slots[i].Some?) ==> Filled(slots) == |slots|
    ensures (forall i :: 0 <= i < |slots| ==> slots[i].None?) ==> Filled(slots) == 0
  {
    if slots != [] {
      FilledBounds(slots[..|slots| - 1]);
    }
  }

  // ----- The function itself -----

  function SequentialMap(items: seq<Item>, spawn: Spawner): seq<Captured> {
    seq(|items|, i requires 0 <= i < |items| => RunOne(items[i], spawn))
  }

  /** What comes of one item: its program run in its directory with the arguments behind it,
      or, without a program, an error that says so. */
  predicate IsRunOf(r: Captured, item: Item, spawn: Spawner) {
    && r.name == item.name
    && (item.argv != [] ==> (r.status, r.output) == spawn(item.path, item.argv[0], item.argv[1..]))
    && (item.argv == [] ==> r.status == SpawnError("exec: no command resolved") && r.output == [])
  }

  /** The fan-out under an arbitrary scheduler: results come back in input order, and the
      final unwrapping of the slots cannot fail. */
  method RunInDirsParallel(jobs: nat, items: seq<Item>, spawn: Spawner) returns (results: seq<Captured>)
    ensures results == SequentialMap(items, spawn)
    ensures |results| == |items|
    ensures forall i :: 0 <= i < |items| ==> IsRunOf(results[i], items[i], spawn)
  {
    if items == [] {
      return [];
    }
    var workers := Workers(jobs, |items|);
    var s := Initial(|items|, workers);
    InitialInv(items, spawn, workers);
    while exists w :: 0 <= w < |s.pcs| && !s.pcs[w].Stopped?
      invariant Inv(items, spawn, s) && |s.pcs| == workers
      decreases 2 * |items| + workers - s.next - Filled(s.slots)
    {
      var w :| 0 <= w < |s.pcs| && !s.pcs[w].Stopped?;
      var a := if s.pcs[w].Ready? then Claim(w) else Fill(w);
      FilledBounds(s.slots);
      StoppedAtMost(s.pcs);
      if a.Fill? {
        var i := s.pcs[w].index;
        FilledAfter(s.slots, i, RunOne(items[i], spawn));
      }
      StepInv(items, spawn, s, a);
      s := Step(items, spawn, s, a);
      FilledBounds(s.slots);
      StoppedAtMost(s.pcs);
    }
    StoppedIsSequential(items, spawn, s);
    results := [];
    for i := 0 to |items|
      invariant |results| == i
      invariant forall j :: 0 <= j < i ==> results[j] == RunOne(items[j], spawn)
    {
      results := results + [s.slots[i].value];
    }
  }

  function RollupExitCode(results: seq<Captured>): int {
    if forall r <- results :: r.status == Success then 0 else 1
  }

  /** The exit code of the fan-out says whether every program succeeded. */
  lemma {:induction false} ExitCodeOfFanOut(items: seq<Item>, spawn: Spawner)
    ensures RollupExitCode(SequentialMap(items, spawn)) == 0 || RollupExitCode(SequentialMap(items, spawn)) == 1
    ensures RollupExitCode(SequentialMap(items, spawn)) == 0 <==>
            forall i :: 0 <= i < |items| ==>
              items[i].argv != [] && spawn(items[i].path, items[i].argv[0], items[i].argv[1..]).0 == Success
  {
    var results := SequentialMap(items, spawn);
    if RollupExitCode(results) == 0 {
      forall i | 0 <= i < |items|
        ensures items[i].argv != [] && spawn(items[i].path, items[i].argv[0], items[i].argv[1..]).0 == Success
      {
        assert results[i] in results;
      }
    }
  }
}
