/** The per-worktree summary of agent sessions and the manual pins laid over it. */
module Detection {
  import opened Wrappers
  import opened Sessions
  import opened SessionIds
  import opened ClaudeScan
  import opened ClaudeSweep

  datatype Worktree = Worktree(id: string, path: Path)

  type Summary = map<string, seq<Session>>

  // ----- Matching sessions to worktrees -----

  /** How many worktrees of identifier `id` a session matches; two entries may share one
      identifier, and then the session is listed once for each. */
  function Hits(s: Session, worktrees: seq<Worktree>, key: Path -> Path, id: string): nat {
    if worktrees == [] then 0
    else
      var last := worktrees[|worktrees| - 1];
      Hits(s, worktrees[..|worktrees| - 1], key, id) + if Claims(last, s, key, id) then 1 else 0
  }

  predicate Claims(w: Worktree, s: Session, key: Path -> Path, id: string) {
    w.id == id && key(w.path) == key(s.cwd)
  }

  /** `list` with the session pushed once for every claiming worktree. */
  function Filed(
    list: seq<Session>, s: Session, worktrees: seq<Worktree>, key: Path -> Path, id: string): seq<Session>
  {
    if worktrees == [] then list
    else
      var filed := Filed(list, s, worktrees[..|worktrees| - 1], key, id);
      if Claims(worktrees[|worktrees| - 1], s, key, id) then filed + [s] else filed
  }

  function Matched(sessions: seq<Session>, worktrees: seq<Worktree>, key: Path -> Path, id: string): seq<Session> {
    if sessions == [] then []
    else
      Filed(Matched(sessions[..|sessions| - 1], worktrees, key, id), sessions[|sessions| - 1], worktrees, key, id)
  }

  function Ids(worktrees: seq<Worktree>): set<string> {
    set w <- worktrees :: w.id
  }

  /** The lists before they are sorted. */
  function Collected(sessions: seq<Session>, worktrees: seq<Worktree>, key: Path -> Path): Summary {
    map id | id in Ids(worktrees) && Matched(sessions, worktrees, key, id) != [] ::
      Matched(sessions, worktrees, key, id)
  }

  function SortAll(m: Summary): Summary {
    map id <- m :: Sort(m[id])
  }

  function Listed(m: Summary, id: string): seq<Session> {
    if id in m then m[id] else []
  }

  method SummarizeWith(sessions: seq<Session>, worktrees: seq<Worktree>, key: Path -> Path) returns (m: Summary)
    ensures m == SortAll(Collected(sessions, worktrees, key))
  {
    m := map[];
    for i := 0 to |sessions|
      invariant IsCollected(m, sessions[..i], worktrees, key)
    {
      ghost var before := m;
      assert sessions[..i + 1][..i] == sessions[..i];
      m := FileSession(m, sessions[i], worktrees, key);
      forall id
        ensures Listed(m, id) == Matched(sessions[..i + 1], worktrees, key, id)
      {
        assert Listed(before, id) == Matched(sessions[..i], worktrees, key, id);
      }
    }
    assert sessions[..|sessions|] == sessions;
    CollectedIsUnique(m, sessions, worktrees, key);
    m := SortValues(m);
  }

  /** The inner loop: one session is pushed once per matching worktree. */
  method FileSession(before: Summary, s: Session, worktrees: seq<Worktree>, key: Path -> Path) returns (m: Summary)
    requires forall id <- before :: before[id] != []
    ensures forall id <- m :: m[id] != []
    ensures forall id :: Listed(m, id) == Filed(Listed(before, id), s, worktrees, key, id)
  {
    m := before;
    for j := 0 to |worktrees|
      invariant forall id <- m :: m[id] != []
      invariant forall id :: Listed(m, id) == Filed(Listed(before, id), s, worktrees[..j], key, id)
    {
      var w := worktrees[j];
      assert worktrees[..j + 1][..j] == worktrees[..j];
      if key(s.cwd) == key(w.path) {
        m := m[w.id := Listed(m, w.id) + [s]];
      }
    }
    assert worktrees[..|worktrees|] == worktrees;
  }

  /** The last loop: every list is sorted in place. */
  method SortValues(unsorted: Summary) returns (m: Summary)
    ensures m == SortAll(unsorted)
  {
    m := unsorted;
    var todo := m.Keys;
    while todo != {}
      invariant m.Keys == unsorted.Keys && todo <= m.Keys
      invariant forall id <- m :: m[id] == if id in todo then unsorted[id] else Sort(unsorted[id])
    {
      var id :| id in todo;
      m := m[id := Sort(m[id])];
      todo := todo - {id};
    }
  }

  ghost predicate IsCollected(m: Summary, sessions: seq<Session>, worktrees: seq<Worktree>, key: Path -> Path) {
    && (forall id <- m :: m[id] != [])
    && (forall id :: Listed(m, id) == Matched(sessions, worktrees, key, id))
  }

  lemma {:induction false} CollectedIsUnique(
    m: Summary, sessions: seq<Session>, worktrees: seq<Worktree>, key: Path -> Path)
    requires IsCollected(m, sessions, worktrees, key)
    ensures m == Collected(sessions, worktrees, key)
  {
    var c := Collected(sessions, worktrees, key);
    forall id
      ensures id in m <==> id in c
      ensures id in m ==> m[id] == c[id]
    {
      assert Listed(m, id) == Matched(sessions, worktrees, key, id);
      UnknownIdMatchesNothing(sessions, worktrees, key, id);
    }
  }

  lemma {:induction false} UnknownIdFilesNothing(
    list: seq<Session>, s: Session, worktrees: seq<Worktree>, key: Path -> Path, id: string)
    requires id !in Ids(worktrees)
    ensures Filed(list, s, worktrees, key, id) == list
  {
    if worktrees != [] {
      assert worktrees[|worktrees| - 1] in worktrees;
      UnknownIdFilesNothing(list, s, worktrees[..|worktrees| - 1], key, id);
    }
  }

  lemma {:induction false} UnknownIdMatchesNothing(
    sessions: seq<Session>, worktrees: seq<Worktree>, key: Path -> Path, id: string)
    ensures id !in Ids(worktrees) ==> Matched(sessions, worktrees, key, id) == []
  {
    if id !in Ids(worktrees) && sessions != [] {
      UnknownIdMatchesNothing(sessions[..|sessions| - 1], worktrees, key, id);
      UnknownIdFilesNothing([], sessions[|sessions| - 1], worktrees, key, id);
    }
  }

  lemma {:induction false} FiledCount(
    list: seq<Session>, s: Session, worktrees: seq<Worktree>, key: Path -> Path, id: string, x: Session)
    ensures multiset(Filed(list, s, worktrees, key, id))[x] ==
            multiset(list)[x] + if x == s then Hits(s, worktrees, key, id) else 0
  {
    if worktrees != [] {
      FiledCount(list, s, worktrees[..|worktrees| - 1], key, id, x);
    }
  }

  /** A session is listed once for every claiming worktree each time it was scanned, and
      nothing else is listed. */
  lemma {:induction false} MatchedCount(
    sessions: seq<Session>, worktrees: seq<Worktree>, key: Path -> Path, id: string, x: Session)
    ensures multiset(Matched(sessions, worktrees, key, id))[x] == multiset(sessions)[x] * Hits(x, worktrees, key, id)
  {
    if sessions != [] {
      var init, last := sessions[..|sessions| - 1], sessions[|sessions| - 1];
      assert sessions == init + [last];
      MatchedCount(init, worktrees, key, id, x);
      FiledCount(Matched(init, worktrees, key, id), last, worktrees, key, id, x);
      Distribute(multiset(init)[x], if last == x then 1 else 0, Hits(x, worktrees, key, id));
    }
  }

  lemma {:induction false} Distribute(a: nat, b: nat, h: nat)
    ensures (a + b) * h == a * h + b * h
  {
  }

  /** The positions of the worktrees that a session is listed for under one identifier:
      those of that identifier at the session's own path. */
  function Places(s: Session, worktrees: seq<Worktree>, key: Path -> Path, id: string): set<int> {
    set i | 0 <= i < |worktrees| && worktrees[i].id == id && key(worktrees[i].path) == key(s.cwd)
  }

  lemma {:induction false} HitsArePlaces(s: Session, worktrees: seq<Worktree>, key: Path -> Path, id: string)
    ensures Hits(s, worktrees, key, id) == |Places(s, worktrees, key, id)|
  {
    if worktrees != [] {
      var n := |worktrees| - 1;
      HitsArePlaces(s, worktrees[..n], key, id);
      var before := Places(s, worktrees[..n], key, id);
      assert Places(s, worktrees, key, id) == before + if Claims(worktrees[n], s, key, id) then {n} else {};
    }
  }

  /** Without pins, a session is listed as often as it was scanned and as there are worktrees
      with its path, and a worktree without a session has no list. */
  lemma {:induction false} ListedCount(
    sessions: seq<Session>, worktrees: seq<Worktree>, key: Path -> Path, id: string, s: Session)
    ensures var m := SortAll(Collected(sessions, worktrees, key));
            && multiset(Listed(m, id))[s] == multiset(sessions)[s] * |Places(s, worktrees, key, id)|
            && (id in m ==> m[id] != [])
  {
    HitsArePlaces(s, worktrees, key, id);
    MatchedCount(sessions, worktrees, key, id, s);
    SortPermutes(Matched(sessions, worktrees, key, id));
    UnknownIdMatchesNothing(sessions, worktrees, key, id);
    assert |Sort(Matched(sessions, worktrees, key, id))| == |Matched(sessions, worktrees, key, id)|;
  }

  // ----- Pins -----

  datatype Pin = Pin(worktree: string, session: string)

  function FirstWithId(sessions: seq<Session>, sid: string): (r: Option<Session>)
    ensures r.None? ==> forall s <- sessions :: s.id != sid
    ensures r.Some? ==> r.value in sessions && r.value.id == sid
  {
    if sessions == [] then None
    else if sessions[0].id == sid then Some(sessions[0])
    else FirstWithId(sessions[1..], sid)
  }

  function Resolve(sessions: seq<Session>, store: Store, sid: string): Option<Session> {
    var found := FirstWithId(sessions, sid);
    if found.Some? then found else SweepById(store, sid)
  }

  /** A pin means the first scanned session of its id, and one in the store only when none
      was scanned. */
  lemma {:induction false} ResolveIs(sessions: seq<Session>, store: Store, sid: string, i: nat)
    requires i <= |sessions| && forall j :: 0 <= j < i ==> sessions[j].id != sid
    requires i < |sessions| ==> sessions[i].id == sid
    ensures Resolve(sessions, store, sid) == if i < |sessions| then Some(sessions[i]) else SweepById(store, sid)
  {
    if i > 0 {
      ResolveIs(sessions[1..], store, sid, i - 1);
    }
  }

  predicate HasId(list: seq<Session>, id: string) {
    exists s <- list :: s.id == id
  }

  /** What one resolved pin does to one list. */
  function AddPin(list: seq<Session>, sid: string, s: Session): seq<Session> {
    if HasId(list, sid) then list else Sort(list + [s])
  }

  function Overlay(m: Summary, sessions: seq<Session>, store: Store, pins: seq<Pin>): Summary {
    if pins == [] then m
    else
      var m' := Overlay(m, sessions, store, pins[..|pins| - 1]);
      var pin := pins[|pins| - 1];
      match Resolve(sessions, store, pin.session)
      case None => m'
      case Some(s) => m'[pin.worktree := AddPin(Listed(m', pin.worktree), pin.session, s)]
  }

  method OverlayPins(m: Summary, sessions: seq<Session>, store: Store, pins: seq<Pin>)
    returns (out: Summary)
    ensures out == Overlay(m, sessions, store, pins)
  {
    out := m;
    for i := 0 to |pins|
      invariant out == Overlay(m, sessions, store, pins[..i])
    {
      assert pins[..i + 1][..i] == pins[..i];
      var found := FirstWithId(sessions, pins[i].session);
      if found.None? {
        found := ClaudeSessionById(store, pins[i].session);
      }
      if found.None? {
        continue;
      }
      var list := Listed(out, pins[i].worktree);
      if !HasId(list, pins[i].session) {
        list := Sort(list + [found.value]);
      }
      out := out[pins[i].worktree := list];
    }
    assert pins[..|pins|] == pins;
  }

  /** Every list of a summary is sorted. */
  predicate AllSorted(m: Summary) {
    forall id <- m :: Sorted(m[id])
  }

  lemma {:induction false} AddPinSorts(list: seq<Session>, sid: string, s: Session)
    requires Sorted(list)
    ensures Sorted(AddPin(list, sid, s))
  {
    SortPermutes(list + [s]);
  }

  lemma {:induction false} OverlayKeepsSorted(
    m: Summary, sessions: seq<Session>, store: Store, pins: seq<Pin>)
    requires AllSorted(m)
    ensures AllSorted(Overlay(m, sessions, store, pins))
  {
    if pins != [] {
      OverlayKeepsSorted(m, sessions, store, pins[..|pins| - 1]);
      var m', pin := Overlay(m, sessions, store, pins[..|pins| - 1]), pins[|pins| - 1];
      var found := Resolve(sessions, store, pin.session);
      if found.Some? {
        var list := Listed(m', pin.worktree);
        assert Sorted(list);
        AddPinSorts(list, pin.session, found.value);
      }
    }
  }

  /** The pinned session, or one of the pinned name, is in the list. */
  predicate Shows(list: seq<Session>, sid: string, s: Session) {
    HasId(list, sid) || s in list
  }

  lemma {:induction false} AddPinKeeps(list: seq<Session>, sid: string, s: Session)
    ensures multiset(list) <= multiset(AddPin(list, sid, s))
    ensures Shows(AddPin(list, sid, s), sid, s)
  {
    SortPermutes(list + [s]);
    assert s in multiset(list + [s]);
  }

  lemma {:induction false} ShowsGrows(list: seq<Session>, longer: seq<Session>, sid: string, s: Session)
    requires multiset(list) <= multiset(longer) && Shows(list, sid, s)
    ensures Shows(longer, sid, s)
  {
    var x :| x in list && (x.id == sid || x == s);
    assert x in multiset(list);
    assert x in longer;
  }

  lemma {:induction false} LastPinGrows(m: Summary, sessions: seq<Session>, store: Store, pins: seq<Pin>, id: string)
    requires pins != []
    ensures multiset(Listed(Overlay(m, sessions, store, pins[..|pins| - 1]), id)) <=
            multiset(Listed(Overlay(m, sessions, store, pins), id))
  {
    var init, last := pins[..|pins| - 1], pins[|pins| - 1];
    assert pins == init + [last];
    OneMorePin(m, sessions, store, init, last, id);
  }

  /** Nothing the summary already listed is lost, and lists nobody pinned to are as they
      were. */
  lemma {:induction false} OverlayKeeps(
    m: Summary, sessions: seq<Session>, store: Store, pins: seq<Pin>, id: string)
    ensures multiset(Listed(m, id)) <= multiset(Listed(Overlay(m, sessions, store, pins), id))
    ensures (forall p <- pins :: p.worktree != id) ==> Listed(Overlay(m, sessions, store, pins), id) == Listed(m, id)
  {
    if pins != [] {
      var init, pin := pins[..|pins| - 1], pins[|pins| - 1];
      OverlayKeeps(m, sessions, store, init, id);
      LastPinGrows(m, sessions, store, pins, id);
      assert pin in pins;
    }
  }

  /** A pin that resolves is listed at the worktree it names. */
  lemma {:induction false} PinIsPresent(
    m: Summary, sessions: seq<Session>, store: Store, pins: seq<Pin>, pin: Pin)
    requires pin in pins && Resolve(sessions, store, pin.session).Some?
    ensures Shows(Listed(Overlay(m, sessions, store, pins), pin.worktree), pin.session,
                  Resolve(sessions, store, pin.session).value)
  {
    var init, last := pins[..|pins| - 1], pins[|pins| - 1];
    var m', s := Overlay(m, sessions, store, init), Resolve(sessions, store, pin.session).value;
    if pin == last {
      AddPinKeeps(Listed(m', pin.worktree), pin.session, s);
    } else {
      assert pins == init + [last];
      PinIsPresent(m, sessions, store, init, pin);
      LastPinGrows(m, sessions, store, pins, pin.worktree);
      ShowsGrows(Listed(m', pin.worktree), Listed(Overlay(m, sessions, store, pins), pin.worktree), pin.session, s);
    }
  }

  lemma {:induction false} AddPinAdds(list: seq<Session>, sid: string, s: Session)
    ensures multiset(AddPin(list, sid, s)) ==
            multiset(list) + if forall x <- list :: x.id != sid then multiset{s} else multiset{}
  {
    SortPermutes(list + [s]);
  }

  /** What one more pin adds: the session it resolves to, at the worktree it names, unless
      a session of the pin's id is listed there. */
  lemma {:induction false} OneMorePin(
    m: Summary, sessions: seq<Session>, store: Store, pins: seq<Pin>, pin: Pin, id: string)
    ensures var before, after := Overlay(m, sessions, store, pins), Overlay(m, sessions, store, pins + [pin]);
            var found := Resolve(sessions, store, pin.session);
            multiset(Listed(after, id)) ==
            multiset(Listed(before, id)) +
            if found.Some? && id == pin.worktree && forall s <- Listed(before, id) :: s.id != pin.session
            then multiset{found.value} else multiset{}
  {
    assert (pins + [pin])[..|pins|] == pins;
    var found := Resolve(sessions, store, pin.session);
    if found.Some? {
      AddPinAdds(Listed(Overlay(m, sessions, store, pins), pin.worktree), pin.session, found.value);
    }
  }

  // ----- Duplicated ids -----

  predicate DistinctIds(list: seq<Session>) {
    forall s :: s in list ==> multiset(list)[s] == 1 && forall t <- list :: t.id == s.id ==> t == s
  }

  /** A pin adds an id that is listed already exactly when it resolves to a session of
      another name than the pin's, and that name is listed. */
  lemma {:induction false} AddPinDuplicatesIff(list: seq<Session>, sid: string, s: Session)
    requires DistinctIds(list)
    ensures DistinctIds(AddPin(list, sid, s)) <==> HasId(list, sid) || !HasId(list, s.id)
  {
    var added := Sort(list + [s]);
    SortPermutes(list + [s]);
    assert multiset(added) == multiset(list) + multiset{s};
    forall x
      ensures x in added <==> x in list || x == s
    {
      assert x in added <==> x in multiset(added);
      assert x in list <==> x in multiset(list);
    }
    if !HasId(list, sid) && HasId(list, s.id) {
      var t :| t in list && t.id == s.id;
      assert t in added && s in added && multiset(added)[s] == multiset(list)[s] + 1;
      assert t == s ==> s in multiset(list);
    }
    if !HasId(list, s.id) {
      assert s !in list;
      assert s !in multiset(list);
    }
  }

  predicate IsPlainPin(pin: Pin) {
    forall c <- pin.session :: !IsControl(c)
  }

  /** A pin without control characters resolves to a session of its own id. */
  lemma {:induction false} PlainPinKeepsId(sessions: seq<Session>, store: Store, pin: Pin)
    requires IsPlainPin(pin)
    ensures var s := Resolve(sessions, store, pin.session); s.Some? ==> s.value.id == pin.session
  {
    PrintableIsIdentity(pin.session);
    if FirstWithId(sessions, pin.session).None? && SweepById(store, pin.session).Some? {
      var i := FirstHitIsAHit(store, store.projects, pin.session);
    }
  }

  /** With pins free of control characters, no pin ever repeats an id. */
  lemma {:induction false} OverlayKeepsIdsDistinct(
    m: Summary, sessions: seq<Session>, store: Store, pins: seq<Pin>, w: string)
    requires DistinctIds(Listed(m, w)) && forall p <- pins :: IsPlainPin(p)
    ensures DistinctIds(Listed(Overlay(m, sessions, store, pins), w))
  {
    if pins != [] {
      var init, pin := pins[..|pins| - 1], pins[|pins| - 1];
      assert pin in pins;
      OverlayKeepsIdsDistinct(m, sessions, store, init, w);
      PlainPinKeepsId(sessions, store, pin);
      var found := Resolve(sessions, store, pin.session);
      if found.Some? && pin.worktree == w {
        AddPinDuplicatesIff(Listed(Overlay(m, sessions, store, init), w), pin.session, found.value);
      }
    }
  }

  /** A pin written with a control character can list one session twice. */
  lemma {:induction false} ControlCharacterRepeatsId()
    ensures var a := Session(ClaudeCode, [], 0, false, "a", None);
            var store := Store([], [Project("p", Some([SessionFile(true, "a\U{0001}", 0, None)]))], map[]);
            var m := Overlay(map["w" := [a]], [a], store, [Pin("w", "a\U{0001}")]);
            m["w"] == [a, a.(cwd := ["p"])]
  {
    var a := Session(ClaudeCode, [], 0, false, "a", None);
    var b, sid := a.(cwd := ["p"]), "a\U{0001}";
    var p := Project("p", Some([SessionFile(true, sid, 0, None)]));
    var store := Store([], [p], map[]);
    assert Printable(sid) == "a" by {
      assert sid[..1] == "a" && "a"[..0] == "";
    }
    assert store.base + ["p"] == ["p"];
    FirstHitOne(store, p, sid);
    assert SweepById(store, sid) == Some(b);
    SortTie(a, b);
    assert [Pin("w", sid)][..0] == [];
    assert [a] + [b] == [a, b];
  }

  lemma {:induction false} SortTie(a: Session, b: Session)
    requires SortKey(a) == SortKey(b)
    ensures Sort([a, b]) == [a, b]
  {
    assert [a, b][..1] == [a] && [a][..0] == [];
    KeyLessIsTotal(SortKey(a), SortKey(a));
    assert Sort([a]) == [a] by { assert Sort([]) == []; }
  }

  // ----- The whole detection -----

  /** `detect_all`, given what the four backends scanned. */
  method DetectAll(
    scanned: seq<Session>, worktrees: seq<Worktree>, key: Path -> Path,
    store: Store, pins: seq<Pin>)
    returns (m: Summary)
    ensures m == Detected(scanned, worktrees, key, store, pins)
  {
    var sessions := Sort(scanned);
    m := SummarizeWith(sessions, worktrees, key);
    m := OverlayPins(m, sessions, store, pins);
  }

  function Detected(
    scanned: seq<Session>, worktrees: seq<Worktree>, key: Path -> Path,
    store: Store, pins: seq<Pin>): Summary
  {
    Overlay(SortAll(Collected(Sort(scanned), worktrees, key)), Sort(scanned), store, pins)
  }

  /** Every list that detection shows is in order: running sessions first, and the most
      recently active one on top. */
  lemma {:induction false} DetectedIsInOrder(
    scanned: seq<Session>, worktrees: seq<Worktree>, key: Path -> Path, store: Store, pins: seq<Pin>, id: string)
    ensures var list := Listed(Detected(scanned, worktrees, key, store, pins), id);
            forall i, j :: 0 <= i < j < |list| ==> InOrder(list[i], list[j])
  {
    DetectedIsSorted(scanned, worktrees, key, store, pins);
    SortedIff(Listed(Detected(scanned, worktrees, key, store, pins), id));
  }

  lemma {:induction false} DetectedIsSorted(
    scanned: seq<Session>, worktrees: seq<Worktree>, key: Path -> Path, store: Store, pins: seq<Pin>)
    ensures AllSorted(Detected(scanned, worktrees, key, store, pins))
  {
    var m := SortAll(Collected(Sort(scanned), worktrees, key));
    forall id <- m
      ensures Sorted(m[id])
    {
      SortPermutes(Collected(Sort(scanned), worktrees, key)[id]);
    }
    OverlayKeepsSorted(m, Sort(scanned), store, pins);
  }
}
