/** The cap on live connections: an atomic counter that `try_acquire` raises before it
    looks, and lowers again when it has to refuse. Accept loops and connection threads
    interleave freely between those steps. */
module ConnectionCap {
  import opened Wrappers

  /** `undoing` are the accept loops that have been refused and not yet lowered the counter
      again; `live` are the guards held by connection threads. */
  datatype State = State(active: int, undoing: set<nat>, live: set<nat>)

  datatype Action =
    | Add(acceptor: nat, guard: nat)
    | Undo(acceptor: nat)
    | Drop(guard: nat)

  const INITIAL := State(0, {}, {})

  predicate Enabled(s: State, a: Action) {
    match a
    case Add(acceptor, guard) => acceptor !in s.undoing && guard !in s.live
    case Undo(acceptor) => acceptor in s.undoing
    case Drop(guard) => guard in s.live
  }

  /** `fetch_add` answers whether the counter now exceeds the cap. */
  predicate Refuses(s: State, max: nat) {
    s.active + 1 > max
  }

  function Step(s: State, a: Action, max: nat): State
    requires Enabled(s, a)
  {
    match a
    case Add(acceptor, guard) =>
      if Refuses(s, max) then State(s.active + 1, s.undoing + {acceptor}, s.live)
      else State(s.active + 1, s.undoing, s.live + {guard})
    case Undo(acceptor) => State(s.active - 1, s.undoing - {acceptor}, s.live)
    case Drop(guard) => State(s.active - 1, s.undoing, s.live - {guard})
  }

  /** The counter counts the live guards and the refusals not yet undone. */
  predicate Inv(s: State, max: nat) {
    s.active == |s.live| + |s.undoing| && |s.live| <= max
  }

  lemma {:induction false} StepKeepsInv(s: State, a: Action, max: nat)
    requires Inv(s, max) && Enabled(s, a)
    ensures Inv(Step(s, a, max), max)
    ensures Step(s, a, max).active >= 0
  {
  }

  // ----- Runs -----

  /** The state a run leads to, when each of its actions is enabled where it happens. */
  function Run(actions: seq<Action>, max: nat): Option<State> {
    if actions == [] then Some(INITIAL)
    else
      var before, a := Run(actions[..|actions| - 1], max), actions[|actions| - 1];
      if before.Some? && Enabled(before.value, a) then Some(Step(before.value, a, max)) else None
  }

  /** Over every run of any number of accept loops: the counter never underflows, never
      more than `max` guards are live, and a counter with nobody inside is zero. */
  lemma {:induction false} RunKeepsCap(actions: seq<Action>, max: nat)
    requires Run(actions, max).Some?
    ensures Inv(Run(actions, max).value, max) && 0 <= Run(actions, max).value.active
    ensures var s := Run(actions, max).value; s.live == {} && s.undoing == {} ==> s.active == 0
  {
    if actions != [] {
      RunKeepsCap(actions[..|actions| - 1], max);
      StepKeepsInv(Run(actions[..|actions| - 1], max).value, actions[|actions| - 1], max);
    }
  }

  predicate OnlyAcceptor(actions: seq<Action>, acceptor: nat) {
    forall i :: 0 <= i < |actions| && actions[i].Add? ==> actions[i].acceptor == acceptor
  }

  lemma {:induction false} OnlyOneUndoes(actions: seq<Action>, acceptor: nat, max: nat)
    requires Run(actions, max).Some? && OnlyAcceptor(actions, acceptor)
    ensures Run(actions, max).value.undoing <= {acceptor}
  {
    if actions != [] {
      OnlyOneUndoes(actions[..|actions| - 1], acceptor, max);
    }
  }

  /** With several accept loops a refusal counts the refusals still in flight as well. */
  lemma {:induction false} RefusesIff(actions: seq<Action>, max: nat)
    requires Run(actions, max).Some?
    ensures var s := Run(actions, max).value; Refuses(s, max) <==> |s.live| + |s.undoing| >= max
  {
    RunKeepsCap(actions, max);
  }

  /** With the one accept loop there is, a connection is refused exactly at the cap. */
  lemma {:induction false} SingleAcceptorRefusesAtCap(actions: seq<Action>, acceptor: nat, guard: nat, max: nat)
    requires Run(actions, max).Some? && OnlyAcceptor(actions, acceptor)
    requires Enabled(Run(actions, max).value, Add(acceptor, guard))
    ensures var s := Run(actions, max).value; Refuses(s, max) <==> |s.live| == max
  {
    RunKeepsCap(actions, max);
    OnlyOneUndoes(actions, acceptor, max);
    assert Run(actions, max).value.undoing == {};
  }

  /** With two accept loops the same code could refuse while nobody is connected. */
  lemma {:induction false} TwoAcceptorsRefuseTooEarly()
    ensures var s := Run([Add(0, 0), Add(0, 1), Drop(0)], 1);
            s.Some? && s.value.live == {} && Refuses(s.value, 1) && Enabled(s.value, Add(1, 2))
  {
    var one, two, three := [Add(0, 0)], [Add(0, 0), Add(0, 1)], [Add(0, 0), Add(0, 1), Drop(0)];
    assert one[..0] == [] && two[..1] == one && three[..2] == two;
    assert INITIAL.live + {0} == {0} && INITIAL.undoing + {0} == {0};
    assert Run([], 1) == Some(INITIAL);
    assert Run(one, 1) == Some(State(1, {}, {0}));
    assert Run(two, 1) == Some(State(2, {0}, {0}));
    assert Run(three, 1) == Some(State(1, {0}, {}));
  }

  // ----- The guard itself -----

  /** The counter, with the guards and the refusals in flight that it stands for. */
  class ActiveCounter {
    const max: nat
    var active: int
    ghost var undoing: set<nat>
    ghost var live: set<nat>

    ghost function Model(): State
      reads this
    {
      State(active, undoing, live)
    }

    ghost predicate Valid()
      reads this
    {
      Inv(Model(), max)
    }

    constructor (max: nat)
      ensures Valid() && Model() == INITIAL && this.max == max
    {
      this.max, active, undoing, live := max, 0, {}, {};
    }

    /** The raise, and the look at what was there before. */
    method FetchAdd(ghost acceptor: nat, ghost guard: nat) returns (refused: bool)
      requires Valid() && Enabled(Model(), Add(acceptor, guard))
      modifies this
      ensures Valid() && Model() == Step(old(Model()), Add(acceptor, guard), max)
      ensures refused == Refuses(old(Model()), max)
    {
      refused := active + 1 > max;
      active := active + 1;
      if refused {
        undoing := undoing + {acceptor};
      } else {
        live := live + {guard};
      }
    }

    /** The lowering, after a refusal or by a guard that is dropped. */
    method FetchSub(ghost a: Action)
      requires Valid() && Enabled(Model(), a) && !a.Add?
      modifies this
      ensures Valid() && Model() == Step(old(Model()), a, max)
      ensures 0 <= active == old(active) - 1
    {
      active := active - 1;
      if a.Undo? {
        undoing := undoing - {a.acceptor};
      } else {
        live := live - {a.guard};
      }
    }

    /** Raises, looks, and lowers again on refusal. Undisturbed, it grants a guard exactly
        while live guards and refusals in flight are fewer than the cap, and a refusal leaves
        no trace. */
    method TryAcquire(ghost acceptor: nat, ghost guard: nat) returns (acquired: bool)
      requires Valid() && Enabled(Model(), Add(acceptor, guard))
      modifies this
      ensures Valid()
      ensures acquired <==> |old(live)| + |old(undoing)| < max
      ensures live == (if acquired then old(live) + {guard} else old(live)) && undoing == old(undoing)
    {
      var refused := FetchAdd(acceptor, guard);
      if refused {
        FetchSub(Undo(acceptor));
        return false;
      }
      return true;
    }

    /** A guard is dropped. */
    method Release(ghost guard: nat)
      requires Valid() && guard in live
      modifies this
      ensures Valid() && live == old(live) - {guard} && undoing == old(undoing)
      ensures 0 <= active == old(active) - 1
    {
      FetchSub(Drop(guard));
    }
  }
}
