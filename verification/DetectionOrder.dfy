/** Whether detection depends on the order in which sessions are scanned and directories are
    listed. It does where two sessions that are listed together share a key, where a pinned
    id is shared by two scanned sessions of one key, and where a pin has to be looked up in
    the store and two directories resolve it differently. All of this is for one registry of
    running sessions: when the names it keeps depend on the order of its own files is said by
    `NameOrderIff`. */
module DetectionOrder {
  import opened Wrappers
  import opened Text
  import opened Sessions
  import opened SessionIds
  import opened ClaudeScan
  import opened ClaudeSweep
  import opened Detection
  import opened SummaryOrder

  // ----- What pins are resolved against -----

  datatype Pool = Pool(sessions: seq<Session>, store: Store)

  function Found(a: Pool, sid: string): Option<Session> {
    Resolve(a.sessions, a.store, sid)
  }

  function Laid(m: Summary, a: Pool, pins: seq<Pin>): Summary {
    Overlay(m, a.sessions, a.store, pins)
  }

  /** The same ids are found, and listed under the same ids. */
  ghost predicate Alike(a: Pool, b: Pool) {
    forall sid ::
      && (Found(a, sid).Some? <==> Found(b, sid).Some?)
      && (Found(a, sid).Some? ==> Found(a, sid).value.id == Found(b, sid).value.id)
  }

  // ----- The ids that get listed -----

  /** The ids listed at a worktree after the pins. */
  function ListedIds(m: Summary, a: Pool, pins: seq<Pin>, w: string): set<string> {
    if pins == [] then set s <- Listed(m, w) :: s.id
    else
      var before, pin := ListedIds(m, a, pins[..|pins| - 1], w), pins[|pins| - 1];
      var found := Found(a, pin.session);
      if pin.worktree == w && pin.session !in before && found.Some? then before + {found.value.id} else before
  }

  lemma {:induction false} AddPinIds(list: seq<Session>, sid: string, s: Session, id: string)
    ensures HasId(AddPin(list, sid, s), id) <==> HasId(list, id) || (!HasId(list, sid) && s.id == id)
  {
    var added := Sort(list + [s]);
    SortPermutes(list + [s]);
    forall x
      ensures x in added <==> x in list || x == s
    {
      assert x in added <==> x in multiset(added);
    }
    if s.id == id {
      assert s in added;
    }
    if t :| t in list && t.id == id {
      assert t in added;
    }
  }

  lemma {:induction false} ListedIdsAre(m: Summary, a: Pool, pins: seq<Pin>, w: string, id: string)
    ensures id in ListedIds(m, a, pins, w) <==> HasId(Listed(Laid(m, a, pins), w), id)
  {
    if pins != [] {
      var init, pin := pins[..|pins| - 1], pins[|pins| - 1];
      ListedIdsAre(m, a, init, w, id);
      ListedIdsAre(m, a, init, w, pin.session);
      var found := Found(a, pin.session);
      if found.Some? && pin.worktree == w {
        AddPinIds(Listed(Laid(m, a, init), w), pin.session, found.value, id);
      }
    }
  }

  lemma {:induction false} ListedIdsAlike(m: Summary, a: Pool, b: Pool, pins: seq<Pin>, w: string)
    requires Alike(a, b)
    ensures ListedIds(m, a, pins, w) == ListedIds(m, b, pins, w)
  {
    if pins != [] {
      ListedIdsAlike(m, a, b, pins[..|pins| - 1], w);
      var sid := pins[|pins| - 1].session;
      assert Found(a, sid).Some? <==> Found(b, sid).Some?;
    }
  }

  // ----- Pools that give the same -----

  /** The id of pin `i` is not listed by then. */
  predicate IsNew(m: Summary, a: Pool, pins: seq<Pin>, i: nat)
    requires i < |pins|
  {
    pins[i].session !in ListedIds(m, a, pins[..i], pins[i].worktree)
  }

  lemma {:induction false} IsNewBefore(m: Summary, a: Pool, pins: seq<Pin>, i: nat)
    requires i < |pins| - 1
    ensures IsNew(m, a, pins[..|pins| - 1], i) <==> IsNew(m, a, pins, i)
  {
    assert pins[..|pins| - 1][..i] == pins[..i];
  }

  /** Both find the same for every pin that is new. */
  predicate Agree(m: Summary, a: Pool, b: Pool, pins: seq<Pin>) {
    forall i :: 0 <= i < |pins| && IsNew(m, a, pins, i) ==> Found(a, pins[i].session) == Found(b, pins[i].session)
  }

  lemma {:induction false} LaidAlike(m: Summary, a: Pool, b: Pool, pins: seq<Pin>)
    requires Alike(a, b) && Agree(m, a, b, pins)
    ensures Laid(m, a, pins) == Laid(m, b, pins)
  {
    if pins != [] {
      var n := |pins| - 1;
      var init, pin := pins[..n], pins[n];
      forall i | 0 <= i < n && IsNew(m, a, init, i)
        ensures Found(a, init[i].session) == Found(b, init[i].session)
      {
        IsNewBefore(m, a, pins, i);
      }
      LaidAlike(m, a, b, init);
      ListedIdsAre(m, a, init, pin.worktree, pin.session);
      assert Found(a, pin.session).Some? <==> Found(b, pin.session).Some?;
      assert IsNew(m, a, pins, n) ==> Found(a, pin.session) == Found(b, pin.session);
    }
  }

  // ----- Pools that do not -----

  /** Sessions that are counted: those of one working directory, or copies of one session. */
  datatype Target = From(cwd: Path) | Just(s: Session)

  predicate Is(t: Target, s: Session) {
    match t
    case From(cwd) => s.cwd == cwd
    case Just(x) => s == x
  }

  predicate Finds(t: Target, s: Option<Session>) {
    s.Some? && Is(t, s.value)
  }

  function Count(list: seq<Session>, t: Target): nat {
    if list == [] then 0 else Count(list[..|list| - 1], t) + if Is(t, list[|list| - 1]) then 1 else 0
  }

  lemma {:induction false} CountMore(list: seq<Session>, s: Session, t: Target)
    ensures Count(list + [s], t) == Count(list, t) + if Is(t, s) then 1 else 0
  {
    assert (list + [s])[..|list|] == list;
  }

  lemma {:induction false} CountInsert(list: seq<Session>, s: Session, t: Target)
    ensures Count(Insert(list, s), t) == Count(list, t) + if Is(t, s) then 1 else 0
  {
    if list != [] && KeyLess(SortKey(s), SortKey(list[|list| - 1])) {
      var init, last := list[..|list| - 1], list[|list| - 1];
      CountInsert(init, s, t);
      CountMore(Insert(init, s), last, t);
    } else {
      CountMore(list, s, t);
    }
  }

  lemma {:induction false} CountSort(list: seq<Session>, t: Target)
    ensures Count(Sort(list), t) == Count(list, t)
  {
    if list != [] {
      CountSort(list[..|list| - 1], t);
      CountInsert(Sort(list[..|list| - 1]), list[|list| - 1], t);
    }
  }

  /** A pin adds one session, unless its id is listed. */
  lemma {:induction false} AddPinCount(list: seq<Session>, sid: string, s: Session, t: Target)
    ensures Count(AddPin(list, sid, s), t) == Count(list, t) + if !HasId(list, sid) && Is(t, s) then 1 else 0
  {
    CountSort(list + [s], t);
    CountMore(list, s, t);
  }

  function CountAt(m: Summary, a: Pool, pins: seq<Pin>, w: string, t: Target): nat {
    Count(Listed(Laid(m, a, pins), w), t)
  }

  /** What one more pin adds. */
  lemma {:induction false} CountAtMore(m: Summary, a: Pool, pins: seq<Pin>, w: string, t: Target)
    requires pins != []
    ensures var init, pin := pins[..|pins| - 1], pins[|pins| - 1];
            CountAt(m, a, pins, w, t) ==
            CountAt(m, a, init, w, t) +
            if pin.worktree == w && pin.session !in ListedIds(m, a, init, w) && Finds(t, Found(a, pin.session))
            then 1 else 0
  {
    var init, pin := pins[..|pins| - 1], pins[|pins| - 1];
    var found := Found(a, pin.session);
    ListedIdsAre(m, a, init, w, pin.session);
    if found.Some? && pin.worktree == w {
      AddPinCount(Listed(Laid(m, a, init), w), pin.session, found.value, t);
    }
  }

  /** Wherever `b` finds the target, so does `a`. */
  ghost predicate Prefers(a: Pool, b: Pool, t: Target) {
    forall sid :: Finds(t, Found(b, sid)) ==> Finds(t, Found(a, sid))
  }

  lemma {:induction false} LastPinMore(m: Summary, a: Pool, b: Pool, pins: seq<Pin>, w: string, t: Target)
    requires Alike(a, b) && Prefers(a, b, t) && pins != []
    ensures var init := pins[..|pins| - 1];
            CountAt(m, b, pins, w, t) - CountAt(m, b, init, w, t) <=
            CountAt(m, a, pins, w, t) - CountAt(m, a, init, w, t)
  {
    CountAtMore(m, a, pins, w, t);
    CountAtMore(m, b, pins, w, t);
    ListedIdsAlike(m, a, b, pins[..|pins| - 1], w);
    assert Finds(t, Found(b, pins[|pins| - 1].session)) ==> Finds(t, Found(a, pins[|pins| - 1].session));
  }

  lemma {:induction false} NeverFewer(m: Summary, a: Pool, b: Pool, pins: seq<Pin>, w: string, t: Target)
    requires Alike(a, b) && Prefers(a, b, t)
    ensures CountAt(m, b, pins, w, t) <= CountAt(m, a, pins, w, t)
  {
    if pins != [] {
      NeverFewer(m, a, b, pins[..|pins| - 1], w, t);
      LastPinMore(m, a, b, pins, w, t);
    }
  }

  predicate HasMore(m: Summary, a: Pool, b: Pool, pins: seq<Pin>, w: string, t: Target) {
    CountAt(m, b, pins, w, t) < CountAt(m, a, pins, w, t)
  }

  lemma {:induction false} NowMore(m: Summary, a: Pool, b: Pool, pins: seq<Pin>, t: Target)
    requires Alike(a, b) && Prefers(a, b, t) && pins != [] && IsNew(m, a, pins, |pins| - 1)
    requires var sid := pins[|pins| - 1].session; Finds(t, Found(a, sid)) && !Finds(t, Found(b, sid))
    ensures HasMore(m, a, b, pins, pins[|pins| - 1].worktree, t)
  {
    var init, w := pins[..|pins| - 1], pins[|pins| - 1].worktree;
    NeverFewer(m, a, b, init, w, t);
    CountAtMore(m, a, pins, w, t);
    CountAtMore(m, b, pins, w, t);
  }

  /** A new pin that only `a` resolves to the target makes the two differ for good. */
  lemma {:induction false} OneMore(m: Summary, a: Pool, b: Pool, pins: seq<Pin>, i: nat, t: Target)
    requires Alike(a, b) && Prefers(a, b, t) && i < |pins| && IsNew(m, a, pins, i)
    requires Finds(t, Found(a, pins[i].session)) && !Finds(t, Found(b, pins[i].session))
    ensures HasMore(m, a, b, pins, pins[i].worktree, t)
  {
    var init := pins[..|pins| - 1];
    if i < |init| {
      IsNewBefore(m, a, pins, i);
      OneMore(m, a, b, init, i, t);
      LastPinMore(m, a, b, pins, pins[i].worktree, t);
    } else {
      NowMore(m, a, b, pins, t);
    }
  }

  // ----- The order of the directories -----

  lemma {:induction false} StoreInAnyOrder(sessions: seq<Session>, store: Store, other: Store)
    requires SameDirectories(store, other)
    ensures Alike(Pool(sessions, store), Pool(sessions, other))
  {
    forall sid
      ensures var a, b := Found(Pool(sessions, store), sid), Found(Pool(sessions, other), sid);
              (a.Some? <==> b.Some?) && (a.Some? ==> a.value.id == b.value.id)
    {
      SweepInAnyOrder(store, other, sid);
    }
  }

  /** Listed first or listed last, directory `k` makes a difference to an ambiguous id it
      holds, and to no other id the other way round. */
  lemma {:induction false} FirstOrLast(sessions: seq<Session>, store: Store, k: nat, sid: string)
    requires DistinctNames(store.projects) && k < |store.projects|
    requires FirstWithId(sessions, sid).None? && IsAmbiguous(store, sid) && HitIn(store, store.projects[k], sid).Some?
    ensures var a, b := Pool(sessions, Front(store, k)), Pool(sessions, Back(store, k));
            var t := From(store.base + [store.projects[k].name]);
            && Alike(a, b) && Prefers(a, b, t) && Finds(t, Found(a, sid)) && !Finds(t, Found(b, sid))
  {
    var a, b := Pool(sessions, Front(store, k)), Pool(sessions, Back(store, k));
    var t := From(store.base + [store.projects[k].name]);
    FrontAndBackAreSame(store, k);
    StoreInAnyOrder(sessions, Front(store, k), Back(store, k));
    forall id
      ensures Finds(t, Found(b, id)) ==> Finds(t, Found(a, id))
    {
      LastGives(store, k, id);
      if !HasSeparator(id) {
        FirstGives(store, k, id);
      }
    }
    LastGives(store, k, sid);
    FirstGives(store, k, sid);
  }

  /** Pin `i` is looked up in the store, two directories resolve it differently, and its id
      is not listed by then. */
  predicate LookupMatters(m: Summary, sessions: seq<Session>, store: Store, pins: seq<Pin>, i: nat)
    requires i < |pins|
  {
    && FirstWithId(sessions, pins[i].session).None? && IsAmbiguous(store, pins[i].session)
    && IsNew(m, Pool(sessions, store), pins, i)
  }

  /** The overlay is the same for every order of the directories exactly when the order
      matters for no pin. */
  lemma {:induction false} OverlayOrderIff(m: Summary, sessions: seq<Session>, store: Store, pins: seq<Pin>)
    requires DistinctNames(store.projects)
    ensures (forall other :: SameDirectories(store, other) ==>
               Overlay(m, sessions, other, pins) == Overlay(m, sessions, store, pins)) <==>
            forall i :: 0 <= i < |pins| ==> !LookupMatters(m, sessions, store, pins, i)
  {
    if i :| 0 <= i < |pins| && LookupMatters(m, sessions, store, pins, i) {
      var k := LookupDiffers(m, sessions, store, pins, i);
      FrontAndBackAreSame(store, k);
      assert Overlay(m, sessions, Front(store, k), pins) != Overlay(m, sessions, Back(store, k), pins);
    } else {
      forall other | SameDirectories(store, other)
        ensures Overlay(m, sessions, other, pins) == Overlay(m, sessions, store, pins)
      {
        var a, b := Pool(sessions, store), Pool(sessions, other);
        StoreInAnyOrder(sessions, store, other);
        forall i | 0 <= i < |pins| && IsNew(m, a, pins, i)
          ensures Found(a, pins[i].session) == Found(b, pins[i].session)
        {
          assert !LookupMatters(m, sessions, store, pins, i);
          SweepInAnyOrder(store, other, pins[i].session);
        }
        LaidAlike(m, a, b, pins);
      }
    }
  }

  lemma {:induction false} LookupDiffers(m: Summary, sessions: seq<Session>, store: Store, pins: seq<Pin>, i: nat)
    returns (k: nat)
    requires DistinctNames(store.projects) && i < |pins| && LookupMatters(m, sessions, store, pins, i)
    ensures k < |store.projects|
    ensures Overlay(m, sessions, Front(store, k), pins) != Overlay(m, sessions, Back(store, k), pins)
  {
    var sid := pins[i].session;
    var p :| p in store.projects && HitIn(store, p, sid).Some?;
    k :| 0 <= k < |store.projects| && store.projects[k] == p;
    var a, b := Pool(sessions, Front(store, k)), Pool(sessions, Back(store, k));
    FrontAndBackAreSame(store, k);
    StoreInAnyOrder(sessions, store, Front(store, k));
    ListedIdsAlike(m, Pool(sessions, store), a, pins[..i], pins[i].worktree);
    FirstOrLast(sessions, store, k, sid);
    OneMore(m, a, b, pins, i, From(store.base + [p.name]));
    assert Laid(m, a, pins) != Laid(m, b, pins);
  }
}
