/** Finding one session of the Claude Code store by its id: the first project directory, in
    the order they are listed, that holds a fresh file of that name. */
module ClaudeSweep {
  import opened Wrappers
  import opened Text
  import opened Sessions
  import opened SessionIds
  import opened ClaudeScan

  /** The project directories in the order they are listed, and the running sessions. */
  datatype Store = Store(base: Path, projects: seq<Project>, live: Registry)

  function FreshFile(files: seq<SessionFile>, sid: string): (f: Option<SessionFile>)
    ensures f.Some? ==> f.value.isFresh && f.value.stem == sid
  {
    if files == [] then None
    else if files[|files| - 1].isFresh && files[|files| - 1].stem == sid then Some(files[|files| - 1])
    else FreshFile(files[..|files| - 1], sid)
  }

  /** The session of that id in one directory. */
  function HitIn(store: Store, p: Project, sid: string): (s: Option<Session>)
    ensures s.Some? ==> s.value.cwd == store.base + [p.name] && CleanId(sid) == Some(s.value.id)
  {
    var f := FreshFile(Files(p), sid);
    if f.None? then None else SessionOf(f.value, store.base + [p.name], store.live)
  }

  function FirstHit(store: Store, projects: seq<Project>, sid: string): Option<Session> {
    if projects == [] then None
    else
      var earlier := FirstHit(store, projects[..|projects| - 1], sid);
      if earlier.Some? then earlier else HitIn(store, projects[|projects| - 1], sid)
  }

  predicate HasSeparator(sid: string) {
    '/' in sid || '\\' in sid
  }

  function SweepById(store: Store, sid: string): Option<Session> {
    if HasSeparator(sid) then None else FirstHit(store, store.projects, sid)
  }

  method ClaudeSessionById(store: Store, sid: string) returns (found: Option<Session>)
    ensures found == SweepById(store, sid)
  {
    if HasSeparator(sid) {
      return None;
    }
    for i := 0 to |store.projects|
      invariant FirstHit(store, store.projects[..i], sid) == None
    {
      assert store.projects[..i + 1][..i] == store.projects[..i];
      var p := store.projects[i];
      var f := FreshFile(Files(p), sid);
      if f.None? {
        continue;
      }
      FirstFreshDecides(store, store.projects, i, sid);
      return SessionOf(f.value, store.base + [p.name], store.live);
    }
    assert store.projects[..|store.projects|] == store.projects;
    found := None;
  }

  // ----- Hits -----

  lemma {:induction false} FirstHitAppend(store: Store, a: seq<Project>, b: seq<Project>, sid: string)
    ensures FirstHit(store, a + b, sid) ==
            if FirstHit(store, a, sid).Some? then FirstHit(store, a, sid) else FirstHit(store, b, sid)
  {
    if b == [] {
      assert a + b == a;
    } else {
      assert (a + b)[..|a + b| - 1] == a + b[..|b| - 1];
      FirstHitAppend(store, a, b[..|b| - 1], sid);
    }
  }

  lemma {:induction false} FirstHitOne(store: Store, p: Project, sid: string)
    ensures FirstHit(store, [p], sid) == HitIn(store, p, sid)
  {
    assert [p][..0] == [];
  }

  /** The first fresh file decides, also when its name cleans to nothing. */
  lemma {:induction false} FirstFreshDecides(store: Store, projects: seq<Project>, i: nat, sid: string)
    requires i < |projects| && FirstHit(store, projects[..i], sid) == None
    requires FreshFile(Files(projects[i]), sid).Some?
    ensures FirstHit(store, projects, sid) == HitIn(store, projects[i], sid)
  {
    var p, rest := projects[i], projects[i + 1..];
    assert projects == projects[..i] + ([p] + rest);
    FirstHitAppend(store, projects[..i], [p] + rest, sid);
    FirstHitAppend(store, [p], rest, sid);
    FirstHitOne(store, p, sid);
    if HitIn(store, p, sid).None? && FirstHit(store, rest, sid).Some? {
      var j := FirstHitIsAHit(store, rest, sid);
    }
  }

  lemma {:induction false} FirstHitIsAHit(store: Store, projects: seq<Project>, sid: string) returns (i: nat)
    requires FirstHit(store, projects, sid).Some?
    ensures i < |projects| && FirstHit(store, projects, sid) == HitIn(store, projects[i], sid)
  {
    var n := |projects| - 1;
    if FirstHit(store, projects[..n], sid).Some? {
      i := FirstHitIsAHit(store, projects[..n], sid);
    } else {
      i := n;
    }
  }

  lemma {:induction false} HitIsFound(store: Store, projects: seq<Project>, i: nat, sid: string)
    requires i < |projects| && HitIn(store, projects[i], sid).Some?
    ensures FirstHit(store, projects, sid).Some?
  {
    if i < |projects| - 1 {
      HitIsFound(store, projects[..|projects| - 1], i, sid);
    }
  }

  // ----- The order of the listing -----

  /** Two directories of the store resolve the id to different sessions. */
  predicate IsAmbiguous(store: Store, sid: string) {
    !HasSeparator(sid) &&
    exists p, q ::
      && p in store.projects && q in store.projects
      && HitIn(store, p, sid).Some? && HitIn(store, q, sid).Some? && HitIn(store, p, sid) != HitIn(store, q, sid)
  }

  predicate SameDirectories(store: Store, other: Store) {
    other.base == store.base && other.live == store.live && multiset(other.projects) == multiset(store.projects)
  }

  lemma {:induction false} SameMembers(store: Store, other: Store)
    requires SameDirectories(store, other)
    ensures forall p :: p in store.projects <==> p in other.projects
  {
    assert forall p :: p in store.projects <==> p in multiset(store.projects);
    assert forall p :: p in other.projects <==> p in multiset(other.projects);
  }

  /** Whether an id is found, and under which id it is then listed, does not depend on the
      order; what is found does not either, unless the id is ambiguous. */
  lemma {:induction false} SweepInAnyOrder(store: Store, other: Store, sid: string)
    requires SameDirectories(store, other)
    ensures SweepById(store, sid).Some? <==> SweepById(other, sid).Some?
    ensures SweepById(store, sid).Some? ==> SweepById(store, sid).value.id == SweepById(other, sid).value.id
    ensures !IsAmbiguous(store, sid) ==> SweepById(store, sid) == SweepById(other, sid)
  {
    if !HasSeparator(sid) {
      FoundAgain(store, other, sid);
      FoundAgain(other, store, sid);
    }
  }

  lemma {:induction false} FoundAgain(store: Store, other: Store, sid: string)
    requires SameDirectories(store, other) && !HasSeparator(sid)
    ensures SweepById(store, sid).Some? ==>
              && SweepById(other, sid).Some? && SweepById(store, sid).value.id == SweepById(other, sid).value.id
              && (!IsAmbiguous(store, sid) ==> SweepById(store, sid) == SweepById(other, sid))
  {
    if SweepById(store, sid).Some? {
      SameMembers(store, other);
      var i := FirstHitIsAHit(store, store.projects, sid);
      var p := store.projects[i];
      assert p in other.projects;
      var j :| 0 <= j < |other.projects| && other.projects[j] == p;
      assert HitIn(other, p, sid) == HitIn(store, p, sid);
      HitIsFound(other, other.projects, j, sid);
      var k := FirstHitIsAHit(other, other.projects, sid);
      var q := other.projects[k];
      assert q in store.projects && HitIn(other, q, sid) == HitIn(store, q, sid);
    }
  }

  /** Directory `i` listed last. */
  function ToBack(projects: seq<Project>, i: nat): seq<Project>
    requires i < |projects|
  {
    projects[..i] + projects[i + 1..] + [projects[i]]
  }

  function Front(store: Store, i: nat): Store
    requires i < |store.projects|
  {
    store.(projects := ToFront(store.projects, i))
  }

  function Back(store: Store, i: nat): Store
    requires i < |store.projects|
  {
    store.(projects := ToBack(store.projects, i))
  }

  lemma {:induction false} FrontAndBackAreSame(store: Store, i: nat)
    requires i < |store.projects|
    ensures SameDirectories(store, Front(store, i)) && SameDirectories(store, Back(store, i))
  {
    var projects := store.projects;
    ToFrontPermutes(projects, i);
    assert projects == projects[..i] + [projects[i]] + projects[i + 1..];
  }

  /** Listed first, a directory that holds the session gives it. */
  lemma {:induction false} FirstGives(store: Store, i: nat, sid: string)
    requires i < |store.projects| && !HasSeparator(sid)
    ensures var hit := HitIn(store, store.projects[i], sid); hit.Some? ==> SweepById(Front(store, i), sid) == hit
  {
    var p, rest := store.projects[i], store.projects[..i] + store.projects[i + 1..];
    assert ToFront(store.projects, i) == [p] + rest;
    InStore(store, Front(store, i), [p] + rest, sid);
    FirstHitOne(store, p, sid);
    FirstHitAppend(store, [p], rest, sid);
  }

  /** Listed last, it does so only when no other directory does. */
  lemma {:induction false} LastGives(store: Store, i: nat, sid: string)
    requires DistinctNames(store.projects) && i < |store.projects|
    ensures var last := SweepById(Back(store, i), sid);
            last.Some? && last.value.cwd == store.base + [store.projects[i].name] ==>
              HitIn(store, store.projects[i], sid).Some? && !HasSeparator(sid) && !IsAmbiguous(store, sid)
  {
    var p, rest := store.projects[i], store.projects[..i] + store.projects[i + 1..];
    InStore(store, Back(store, i), rest + [p], sid);
    FirstHitOne(store, p, sid);
    FirstHitAppend(store, rest, [p], sid);
    if FirstHit(store, rest, sid).Some? {
      var j := FirstHitIsAHit(store, rest, sid);
      assert rest[j].name != p.name;
      assert (store.base + [rest[j].name])[|store.base|] != (store.base + [p.name])[|store.base|];
    } else {
      OnlyOne(store, i, rest, sid);
    }
  }

  lemma {:induction false} InStore(store: Store, other: Store, projects: seq<Project>, sid: string)
    requires other.base == store.base && other.live == store.live
    ensures FirstHit(other, projects, sid) == FirstHit(store, projects, sid)
  {
    if projects != [] {
      InStore(store, other, projects[..|projects| - 1], sid);
    }
  }

  lemma {:induction false} OnlyOne(store: Store, i: nat, rest: seq<Project>, sid: string)
    requires i < |store.projects| && rest == store.projects[..i] + store.projects[i + 1..]
    requires FirstHit(store, rest, sid).None?
    ensures !IsAmbiguous(store, sid)
  {
    forall q | q in store.projects && HitIn(store, q, sid).Some?
      ensures q == store.projects[i]
    {
      var j :| 0 <= j < |store.projects| && store.projects[j] == q;
      if j != i {
        HitIsFound(store, rest, if j < i then j else j - 1, sid);
      }
    }
  }

  /** What an id resolves to is the same for every order of the directories exactly when no
      two of them resolve it differently. */
  lemma {:induction false} SweepOrderIff(store: Store, sid: string)
    requires DistinctNames(store.projects)
    ensures (forall other :: SameDirectories(store, other) ==> SweepById(other, sid) == SweepById(store, sid)) <==>
            !IsAmbiguous(store, sid)
  {
    if IsAmbiguous(store, sid) {
      var p :| p in store.projects && HitIn(store, p, sid).Some?;
      var i :| 0 <= i < |store.projects| && store.projects[i] == p;
      FrontAndBackAreSame(store, i);
      FirstGives(store, i, sid);
      LastGives(store, i, sid);
      assert SweepById(Front(store, i), sid) != SweepById(Back(store, i), sid);
    } else {
      forall other | SameDirectories(store, other)
        ensures SweepById(other, sid) == SweepById(store, sid)
      {
        SweepInAnyOrder(store, other, sid);
      }
    }
  }

  // ----- What the lookup finds -----

  predicate IsFileFor(f: SessionFile, sid: string) {
    f.isFresh && f.stem == sid
  }

  predicate HoldsFor(p: Project, sid: string) {
    p.listing.Some? && exists f <- p.listing.value :: IsFileFor(f, sid)
  }

  lemma {:induction false} FreshFileIff(files: seq<SessionFile>, sid: string)
    ensures FreshFile(files, sid).Some? <==> exists f <- files :: IsFileFor(f, sid)
    ensures FreshFile(files, sid).Some? ==> FreshFile(files, sid).value in files
  {
    if files != [] {
      var init, last := files[..|files| - 1], files[|files| - 1];
      FreshFileIff(init, sid);
      assert files == init + [last] && last in files;
      assert forall f :: f in files <==> f in init || f == last;
    }
  }

  lemma {:induction false} NoHitBefore(store: Store, projects: seq<Project>, sid: string)
    requires forall j :: 0 <= j < |projects| ==> !HoldsFor(projects[j], sid)
    ensures FirstHit(store, projects, sid) == None
  {
    if projects != [] {
      NoHitBefore(store, projects[..|projects| - 1], sid);
      FreshFileIff(Files(projects[|projects| - 1]), sid);
    }
  }

  /** The lookup of an id without a path separator: the first directory with a fresh file of
      that name decides, and the session is read from there under the directory itself. An id
      with a separator finds nothing. */
  lemma {:induction false} SweepIs(store: Store, sid: string, i: nat)
    requires i <= |store.projects| && forall j :: 0 <= j < i ==> !HoldsFor(store.projects[j], sid)
    requires i < |store.projects| ==> HoldsFor(store.projects[i], sid)
    ensures '/' in sid || '\\' in sid || i == |store.projects| ==> SweepById(store, sid) == None
    ensures '/' !in sid && '\\' !in sid && i < |store.projects| ==>
              exists f <- store.projects[i].listing.value ::
                && IsFileFor(f, sid)
                && SweepById(store, sid) == SessionOf(f, store.base + [store.projects[i].name], store.live)
  {
    NoHitBefore(store, store.projects[..i], sid);
    if i < |store.projects| {
      FreshFileIff(Files(store.projects[i]), sid);
      FirstFreshDecides(store, store.projects, i, sid);
    } else {
      assert store.projects[..i] == store.projects;
    }
  }
}
