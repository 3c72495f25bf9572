/** When the whole detection gives the same for every order in which sessions are scanned and
    directories are listed. */
module Determinism {
  import opened Wrappers
  import opened Text
  import opened Sessions
  import opened SessionIds
  import opened ClaudeScan
  import opened ClaudeSweep
  import opened Detection
  import opened SummaryOrder
  import opened DetectionOrder

  // ----- A pin among the scanned sessions -----

  /** Among the sessions of that id, two different ones share the key that comes first. */
  predicate IsTied(sessions: seq<Session>, sid: string) {
    exists x, y ::
      && x in sessions && y in sessions && x != y && x.id == sid && SortKey(x) == SortKey(y)
      && forall z <- sessions :: z.id == sid ==> !KeyLess(SortKey(z), SortKey(x))
  }

  lemma {:induction false} SameSessions(s: seq<Session>, t: seq<Session>)
    requires multiset(s) == multiset(t)
    ensures forall x :: x in s <==> x in t
  {
    assert forall x :: x in s <==> x in multiset(s);
    assert forall x :: x in t <==> x in multiset(t);
  }

  lemma {:induction false} WithKeyCons(x: Session, s: seq<Session>, k: Key)
    ensures WithKey([x] + s, k) == (if SortKey(x) == k then [x] else []) + WithKey(s, k)
  {
    if s == [] {
      assert [x] + s == [x] && [x][..0] == [];
    } else {
      var init, last := s[..|s| - 1], s[|s| - 1];
      WithKeyCons(x, init, k);
      assert ([x] + s)[..|[x] + s| - 1] == [x] + init;
    }
  }

  /** In a sorted list, the first session of an id is least among those of that id, and first
      among those of its key. */
  lemma {:induction false} FirstIsLeast(s: seq<Session>, sid: string)
    requires Sorted(s) && FirstWithId(s, sid).Some?
    ensures var x := FirstWithId(s, sid).value;
            && (forall z <- s :: z.id == sid ==> !KeyLess(SortKey(z), SortKey(x)))
            && StartsWith(WithKey(s, SortKey(x)), x)
  {
    var x := FirstWithId(s, sid).value;
    if s[0].id == sid {
      KeyLessIsTotal(SortKey(x), SortKey(x));
      WithKeyOfFirst(s, SortKey(x));
    } else {
      assert s == [s[0]] + s[1..];
      FirstIsLeast(s[1..], sid);
      WithKeyCons(s[0], s[1..], SortKey(x));
      assert SortKey(s[0]) != SortKey(x);
    }
  }

  /** The scanned session a pin finds is the same for every order, unless it is tied. */
  lemma {:induction false} ScannedInAnyOrder(s: seq<Session>, t: seq<Session>, sid: string)
    requires multiset(s) == multiset(t)
    ensures FirstWithId(Sort(s), sid).Some? <==> FirstWithId(Sort(t), sid).Some?
    ensures !IsTied(s, sid) ==> FirstWithId(Sort(s), sid) == FirstWithId(Sort(t), sid)
  {
    var a, b := FirstWithId(Sort(s), sid), FirstWithId(Sort(t), sid);
    SortPermutes(s);
    SortPermutes(t);
    SameSessions(s, t);
    SameSessions(s, Sort(s));
    SameSessions(t, Sort(t));
    if a.Some? && b.Some? {
      FirstIsLeast(Sort(s), sid);
      FirstIsLeast(Sort(t), sid);
      KeyLessIsTotal(SortKey(a.value), SortKey(b.value));
    }
  }

  /** A session of the first key of its id is what a pin finds when it is scanned first. */
  lemma {:induction false} TiedIsFound(s: seq<Session>, i: nat, sid: string)
    requires i < |s| && s[i].id == sid
    requires forall z <- s :: z.id == sid ==> !KeyLess(SortKey(z), SortKey(s[i]))
    ensures FirstWithId(Sort(ToFront(s, i)), sid) == Some(s[i])
  {
    var t, k := ToFront(s, i), SortKey(s[i]);
    ToFrontPermutes(s, i);
    SortPermutes(t);
    SameSessions(s, t);
    SameSessions(t, Sort(t));
    var found := FirstWithId(Sort(t), sid);
    assert s[i] in Sort(t);
    FirstIsLeast(Sort(t), sid);
    KeyLessIsTotal(SortKey(found.value), k);
    SortIsStable(t, k);
    WithKeyOfFirst(t, k);
  }

  // ----- Pools -----

  lemma {:induction false} PoolsInAnyOrder(s: seq<Session>, t: seq<Session>, store: Store, other: Store)
    requires multiset(s) == multiset(t) && SameDirectories(store, other)
    ensures Alike(Pool(Sort(s), store), Pool(Sort(t), other))
  {
    forall sid
      ensures var a, b := Found(Pool(Sort(s), store), sid), Found(Pool(Sort(t), other), sid);
              (a.Some? <==> b.Some?) && (a.Some? ==> a.value.id == b.value.id)
    {
      ScannedInAnyOrder(s, t, sid);
      SweepInAnyOrder(store, other, sid);
    }
  }

  /** What the id resolves to depends on an order: that of the scan, or that of the store. */
  predicate IsUnsettled(scanned: seq<Session>, store: Store, sid: string) {
    if FirstWithId(scanned, sid).Some? then IsTied(scanned, sid) else IsAmbiguous(store, sid)
  }

  /** Pin `i` is unsettled, and its id is not listed by then. */
  predicate OrderMatters(m: Summary, scanned: seq<Session>, store: Store, pins: seq<Pin>, i: nat)
    requires i < |pins|
  {
    IsUnsettled(scanned, store, pins[i].session) && IsNew(m, Pool(Sort(scanned), store), pins, i)
  }

  predicate OrderNeverMatters(m: Summary, scanned: seq<Session>, store: Store, pins: seq<Pin>) {
    forall i :: 0 <= i < |pins| ==> !OrderMatters(m, scanned, store, pins, i)
  }

  lemma {:induction false} FirstOfSorted(s: seq<Session>, sid: string)
    ensures FirstWithId(s, sid).Some? <==> FirstWithId(Sort(s), sid).Some?
  {
    SortPermutes(s);
    SameSessions(s, Sort(s));
  }

  lemma {:induction false} PinsInAnyOrder(
    m: Summary, s: seq<Session>, t: seq<Session>, store: Store, other: Store, pins: seq<Pin>)
    requires multiset(s) == multiset(t) && SameDirectories(store, other) && OrderNeverMatters(m, s, store, pins)
    ensures Overlay(m, Sort(s), store, pins) == Overlay(m, Sort(t), other, pins)
  {
    var a, b := Pool(Sort(s), store), Pool(Sort(t), other);
    PoolsInAnyOrder(s, t, store, other);
    forall i | 0 <= i < |pins| && IsNew(m, a, pins, i)
      ensures Found(a, pins[i].session) == Found(b, pins[i].session)
    {
      assert !OrderMatters(m, s, store, pins, i);
      FirstOfSorted(s, pins[i].session);
      ScannedInAnyOrder(s, t, pins[i].session);
      SweepInAnyOrder(store, other, pins[i].session);
    }
    LaidAlike(m, a, b, pins);
  }

  lemma {:induction false} TiedPinDiffers(m: Summary, s: seq<Session>, store: Store, pins: seq<Pin>, i: nat)
    returns (t: seq<Session>, u: seq<Session>)
    requires i < |pins| && OrderMatters(m, s, store, pins, i) && FirstWithId(s, pins[i].session).Some?
    ensures multiset(t) == multiset(s) && multiset(u) == multiset(s)
    ensures Overlay(m, Sort(t), store, pins) != Overlay(m, Sort(u), store, pins)
  {
    var sid := pins[i].session;
    var x, y :| x in s && y in s && x != y && x.id == sid && SortKey(x) == SortKey(y) &&
                forall z <- s :: z.id == sid ==> !KeyLess(SortKey(z), SortKey(x));
    var j :| 0 <= j < |s| && s[j] == x;
    var k :| 0 <= k < |s| && s[k] == y;
    t, u := ToFront(s, j), ToFront(s, k);
    ToFrontPermutes(s, j);
    ToFrontPermutes(s, k);
    TiedIsFound(s, j, sid);
    TiedIsFound(s, k, sid);
    var a, b := Pool(Sort(t), store), Pool(Sort(u), store);
    assert multiset(store.projects) == multiset(store.projects);
    PoolsInAnyOrder(t, u, store, store);
    PoolsInAnyOrder(s, t, store, store);
    ListedIdsAlike(m, Pool(Sort(s), store), a, pins[..i], pins[i].worktree);
    PrefersTied(t, u, store, x);
    OneMore(m, a, b, pins, i, Just(x));
    assert Laid(m, a, pins) != Laid(m, b, pins);
  }

  lemma {:induction false} PrefersTied(t: seq<Session>, u: seq<Session>, store: Store, x: Session)
    requires multiset(t) == multiset(u) && FirstWithId(Sort(t), x.id) == Some(x)
    ensures Prefers(Pool(Sort(t), store), Pool(Sort(u), store), Just(x))
  {
    forall sid
      ensures Finds(Just(x), Found(Pool(Sort(u), store), sid)) ==> Finds(Just(x), Found(Pool(Sort(t), store), sid))
    {
      ScannedInAnyOrder(t, u, sid);
    }
  }

  // ----- The whole detection -----

  /** What is detected is the same for every order in which the sessions were scanned and the
      directories of the store are listed. */
  ghost predicate IsDeterministic(
    scanned: seq<Session>, worktrees: seq<Worktree>, key: Path -> Path, store: Store, pins: seq<Pin>)
  {
    forall again, other :: multiset(again) == multiset(scanned) && SameDirectories(store, other) ==>
      Detected(again, worktrees, key, other, pins) == Detected(scanned, worktrees, key, store, pins)
  }

  /** The summary the pins are laid over. */
  function Summarized(scanned: seq<Session>, worktrees: seq<Worktree>, key: Path -> Path): Summary {
    Summarize(Sort(scanned), worktrees, key)
  }

  lemma {:induction false} SummarizedInAnyOrder(
    s: seq<Session>, t: seq<Session>, worktrees: seq<Worktree>, key: Path -> Path)
    requires ListsTellApart(s, worktrees, key) && multiset(s) == multiset(t)
    ensures Summarized(s, worktrees, key) == Summarized(t, worktrees, key)
  {
    SortPermutes(s);
    SortPermutes(t);
    ListsTellApartAgain(s, Sort(s), worktrees, key);
    SummaryIsOrderIndependent(Sort(s), Sort(t), worktrees, key);
  }

  lemma {:induction false} DetectedInAnyOrder(
    scanned: seq<Session>, worktrees: seq<Worktree>, key: Path -> Path, store: Store, pins: seq<Pin>)
    requires ListsTellApart(scanned, worktrees, key)
    requires OrderNeverMatters(Summarized(scanned, worktrees, key), scanned, store, pins)
    ensures IsDeterministic(scanned, worktrees, key, store, pins)
  {
    forall again, other | multiset(again) == multiset(scanned) && SameDirectories(store, other)
      ensures Detected(again, worktrees, key, other, pins) == Detected(scanned, worktrees, key, store, pins)
    {
      SummarizedInAnyOrder(scanned, again, worktrees, key);
      PinsInAnyOrder(Summarized(scanned, worktrees, key), scanned, again, store, other, pins);
    }
  }

  /** Two orders with different outcomes. */
  lemma {:induction false} Differ(
    scanned: seq<Session>, worktrees: seq<Worktree>, key: Path -> Path, store: Store, pins: seq<Pin>,
    t: seq<Session>, u: seq<Session>, first: Store, second: Store)
    requires multiset(t) == multiset(scanned) && multiset(u) == multiset(scanned)
    requires SameDirectories(store, first) && SameDirectories(store, second)
    requires Detected(t, worktrees, key, first, pins) != Detected(u, worktrees, key, second, pins)
    ensures !IsDeterministic(scanned, worktrees, key, store, pins)
  {
  }

  /** Laying pins over a list keeps the order of the sessions of one key. */
  lemma {:induction false} TiesStay(m: Summary, a: Pool, pins: seq<Pin>, w: string, k: Key)
    ensures WithKey(Listed(m, w), k) <= WithKey(Listed(Laid(m, a, pins), w), k)
  {
    if pins != [] {
      var init, pin := pins[..|pins| - 1], pins[|pins| - 1];
      var list, found := Listed(Laid(m, a, init), w), Found(a, pin.session);
      TiesStay(m, a, init, w, k);
      if found.Some? {
        SortIsStable(list + [found.value], k);
        WithKeyMore(list, found.value, k);
      }
    }
  }

  lemma {:induction false} TiedListDiffers(
    scanned: seq<Session>, worktrees: seq<Worktree>, key: Path -> Path, store: Store, pins: seq<Pin>)
    requires !ListsTellApart(scanned, worktrees, key)
    ensures !IsDeterministic(scanned, worktrees, key, store, pins)
  {
    var id, i, j := FindTie(scanned, worktrees, key);
    TiedComesFirst(scanned, worktrees, key, store, pins, id, i);
    TiedComesFirst(scanned, worktrees, key, store, pins, id, j);
    ToFrontPermutes(scanned, i);
    ToFrontPermutes(scanned, j);
    Differ(scanned, worktrees, key, store, pins, ToFront(scanned, i), ToFront(scanned, j), store, store);
  }

  lemma {:induction false} TiedComesFirst(
    scanned: seq<Session>, worktrees: seq<Worktree>, key: Path -> Path, store: Store, pins: seq<Pin>, id: string,
    i: nat)
    requires i < |scanned| && Hits(scanned[i], worktrees, key, id) > 0
    ensures var list := Listed(Detected(ToFront(scanned, i), worktrees, key, store, pins), id);
            StartsWith(WithKey(list, SortKey(scanned[i])), scanned[i])
  {
    var x, t := scanned[i], ToFront(scanned, i);
    var k, m := SortKey(x), Summarized(t, worktrees, key);
    WithKeyOfFirst(t, k);
    SortIsStable(t, k);
    FirstOfKeyIsListed(Sort(t), worktrees, key, id, x);
    TiesStay(m, Pool(Sort(t), store), pins, id, k);
    assert Laid(m, Pool(Sort(t), store), pins) == Detected(t, worktrees, key, store, pins);
  }

  lemma {:induction false} UnsettledPinDiffers(
    scanned: seq<Session>, worktrees: seq<Worktree>, key: Path -> Path, store: Store, pins: seq<Pin>, i: nat)
    requires ListsTellApart(scanned, worktrees, key) && DistinctNames(store.projects) && i < |pins|
    requires OrderMatters(Summarized(scanned, worktrees, key), scanned, store, pins, i)
    ensures !IsDeterministic(scanned, worktrees, key, store, pins)
  {
    var m := Summarized(scanned, worktrees, key);
    if FirstWithId(scanned, pins[i].session).Some? {
      var t, u := TiedPinDiffers(m, scanned, store, pins, i);
      SummarizedInAnyOrder(scanned, t, worktrees, key);
      SummarizedInAnyOrder(scanned, u, worktrees, key);
      Differ(scanned, worktrees, key, store, pins, t, u, store, store);
    } else {
      FirstOfSorted(scanned, pins[i].session);
      var k := LookupDiffers(m, Sort(scanned), store, pins, i);
      FrontAndBackAreSame(store, k);
      Differ(scanned, worktrees, key, store, pins, scanned, scanned, Front(store, k), Back(store, k));
    }
  }

  /** Detection is deterministic exactly when no two different sessions that are listed
      together share a key, and no pin is unsettled that adds to a list. */
  lemma {:induction false} DetectionOrderIff(
    scanned: seq<Session>, worktrees: seq<Worktree>, key: Path -> Path, store: Store, pins: seq<Pin>)
    requires DistinctNames(store.projects)
    ensures IsDeterministic(scanned, worktrees, key, store, pins) <==>
            && ListsTellApart(scanned, worktrees, key)
            && OrderNeverMatters(Summarized(scanned, worktrees, key), scanned, store, pins)
  {
    var m := Summarized(scanned, worktrees, key);
    if !ListsTellApart(scanned, worktrees, key) {
      TiedListDiffers(scanned, worktrees, key, store, pins);
    } else if i :| 0 <= i < |pins| && OrderMatters(m, scanned, store, pins, i) {
      UnsettledPinDiffers(scanned, worktrees, key, store, pins, i);
    } else {
      DetectedInAnyOrder(scanned, worktrees, key, store, pins);
    }
  }

  // ----- Pins without control characters -----

  /** With such pins, an id is listed because it was listed before or because it is pinned to
      that worktree. */
  lemma {:induction false} ListedIdsOfPlainPins(m: Summary, a: Pool, pins: seq<Pin>, w: string, id: string)
    requires forall p <- pins :: IsPlainPin(p)
    requires id in ListedIds(m, a, pins, w)
    ensures HasId(Listed(m, w), id) || Pin(w, id) in pins
  {
    if pins != [] {
      var init, pin := pins[..|pins| - 1], pins[|pins| - 1];
      assert pin in pins && forall p <- init :: p in pins;
      if id in ListedIds(m, a, init, w) {
        ListedIdsOfPlainPins(m, a, init, w, id);
      } else {
        PlainPinKeepsId(a.sessions, a.store, pin);
      }
    }
  }

  /** The pin is not listed at its worktree, and what it resolves to is unsettled. */
  predicate IsUndecided(m: Summary, scanned: seq<Session>, store: Store, pin: Pin) {
    !HasId(Listed(m, pin.worktree), pin.session) && IsUnsettled(scanned, store, pin.session)
  }

  /** With such pins, the order matters for some pin exactly when some pin is undecided. */
  lemma {:induction false} PlainOrderIff(m: Summary, scanned: seq<Session>, store: Store, pins: seq<Pin>)
    requires forall p <- pins :: IsPlainPin(p)
    ensures OrderNeverMatters(m, scanned, store, pins) <==> forall p <- pins :: !IsUndecided(m, scanned, store, p)
  {
    if i :| 0 <= i < |pins| && OrderMatters(m, scanned, store, pins, i) {
      NewIsNotListed(m, Pool(Sort(scanned), store), pins[..i], pins[i].worktree, pins[i].session);
      assert pins[i] in pins && IsUndecided(m, scanned, store, pins[i]);
    }
    if p :| p in pins && IsUndecided(m, scanned, store, p) {
      var k :| 0 <= k < |pins| && pins[k] == p;
      FirstUndecided(m, scanned, store, pins, k);
    }
  }

  lemma {:induction false} NewIsNotListed(m: Summary, a: Pool, pins: seq<Pin>, w: string, id: string)
    requires id !in ListedIds(m, a, pins, w)
    ensures !HasId(Listed(m, w), id)
  {
    if pins != [] {
      NewIsNotListed(m, a, pins[..|pins| - 1], w, id);
    }
  }

  lemma {:induction false} FirstUndecided(m: Summary, scanned: seq<Session>, store: Store, pins: seq<Pin>, k: nat)
    requires forall p <- pins :: IsPlainPin(p)
    requires k < |pins| && IsUndecided(m, scanned, store, pins[k])
    ensures !OrderNeverMatters(m, scanned, store, pins)
  {
    var a, pin := Pool(Sort(scanned), store), pins[k];
    if pin.session in ListedIds(m, a, pins[..k], pin.worktree) {
      ListedIdsOfPlainPins(m, a, pins[..k], pin.worktree, pin.session);
      var j :| 0 <= j < k && pins[..k][j] == pin;
      FirstUndecided(m, scanned, store, pins, j);
    } else {
      assert OrderMatters(m, scanned, store, pins, k);
    }
  }

  /** With pins free of control characters, detection is deterministic exactly when no two
      different sessions that are listed together share a key and every pin is listed at its
      worktree or settled. Either way every list is sorted. */
  lemma {:induction false} DetectionIsDeterministicIff(
    scanned: seq<Session>, worktrees: seq<Worktree>, key: Path -> Path, store: Store, pins: seq<Pin>)
    requires DistinctNames(store.projects) && forall p <- pins :: IsPlainPin(p)
    ensures IsDeterministic(scanned, worktrees, key, store, pins) <==>
            && ListsTellApart(scanned, worktrees, key)
            && forall p <- pins :: !IsUndecided(Summarized(scanned, worktrees, key), scanned, store, p)
    ensures AllSorted(Detected(scanned, worktrees, key, store, pins))
  {
    PlainOrderIff(Summarized(scanned, worktrees, key), scanned, store, pins);
    DetectionOrderIff(scanned, worktrees, key, store, pins);
    DetectedIsSorted(scanned, worktrees, key, store, pins);
  }

  /** With distinct keys only a pin that has to be looked up can make a difference. */
  lemma {:induction false} DistinctKeysSettle(
    scanned: seq<Session>, worktrees: seq<Worktree>, key: Path -> Path, store: Store, sid: string)
    requires KeysTellApart(scanned)
    ensures ListsTellApart(scanned, worktrees, key)
    ensures IsUnsettled(scanned, store, sid) <==> FirstWithId(scanned, sid).None? && IsAmbiguous(store, sid)
  {
    forall id
      ensures KeysTellApart(Matched(scanned, worktrees, key, id))
    {
      forall x | x in Matched(scanned, worktrees, key, id)
        ensures x in scanned
      {
        var i := Scanned(scanned, worktrees, key, id, x);
      }
    }
  }

  // ----- Two copies of a session file -----

  /** One session file in two directories: the pin shows whichever is listed first. */
  lemma {:induction false} TwoCopiesDependOnOrder()
    ensures var p := Project("p", Some([SessionFile(true, "a", 1, None)]));
            var q := Project("q", Some([SessionFile(true, "a", 2, None)]));
            var pins := [Pin("w", "a")];
            && Listed(Overlay(map[], [], Store([], [p, q], map[]), pins), "w") ==
               [Session(ClaudeCode, ["p"], 1, false, "a", None)]
            && Listed(Overlay(map[], [], Store([], [q, p], map[]), pins), "w") ==
               [Session(ClaudeCode, ["q"], 2, false, "a", None)]
  {
    var p := Project("p", Some([SessionFile(true, "a", 1, None)]));
    var q := Project("q", Some([SessionFile(true, "a", 2, None)]));
    FirstOfTwo(p, q, 1);
    FirstOfTwo(q, p, 2);
    OnePin(Store([], [p, q], map[]), Pin("w", "a"), Session(ClaudeCode, ["p"], 1, false, "a", None));
    OnePin(Store([], [q, p], map[]), Pin("w", "a"), Session(ClaudeCode, ["q"], 2, false, "a", None));
  }

  lemma {:induction false} FirstOfTwo(p: Project, q: Project, mtime: int)
    requires p.listing == Some([SessionFile(true, "a", mtime, None)])
    ensures SweepById(Store([], [p, q], map[]), "a") == Some(Session(ClaudeCode, [p.name], mtime, false, "a", None))
  {
    var store := Store([], [p, q], map[]);
    assert "a"[..0] == "" && Printable("a") == "a";
    assert store.base + [p.name] == [p.name];
    assert [p, q][..1] == [p];
    FirstHitOne(store, p, "a");
  }

  lemma {:induction false} OnePin(store: Store, pin: Pin, s: Session)
    requires SweepById(store, pin.session) == Some(s)
    ensures Listed(Overlay(map[], [], store, [pin]), pin.worktree) == [s]
  {
    assert [pin][..0] == [];
    assert [] + [s] == [s] && [s][..0] == [];
    assert Sort([s]) == [s] by { assert Sort([]) == []; }
  }
}
