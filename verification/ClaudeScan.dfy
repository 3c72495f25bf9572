/** The Claude Code store: which sessions run, and which worktree a project directory's
    sessions belong to. */
module ClaudeScan {
  import opened Wrappers
  import opened Text
  import opened Sessions
  import opened SessionIds

  // ----- The registry of running sessions -----

  datatype LiveEntry = LiveEntry(name: Option<string>, dead: bool)

  type Registry = map<string, LiveEntry>

  /** One readable registry file. */
  datatype Record = Record(sid: string, entry: LiveEntry)

  /** A running process beats a dead one; otherwise the first entry stays, and only a
      missing name is filled in. */
  function Combine(current: LiveEntry, incoming: LiveEntry): LiveEntry {
    if current.dead && !incoming.dead then
      LiveEntry(if incoming.name.Some? then incoming.name else current.name, false)
    else if current.dead == incoming.dead && current.name.None? then LiveEntry(incoming.name, current.dead)
    else current
  }

  /** The entries of one session, in the order they are read. */
  function EntriesOf(records: seq<Record>, sid: string): seq<LiveEntry> {
    if records == [] then []
    else
      EntriesOf(records[..|records| - 1], sid) +
      if records[|records| - 1].sid == sid then [records[|records| - 1].entry] else []
  }

  function Fold(entries: seq<LiveEntry>): LiveEntry
    requires entries != []
  {
    if |entries| == 1 then entries[0]
    else Combine(Fold(entries[..|entries| - 1]), entries[|entries| - 1])
  }

  lemma {:induction false} FoldMore(entries: seq<LiveEntry>, e: LiveEntry)
    requires entries != []
    ensures Fold(entries + [e]) == Combine(Fold(entries), e)
  {
    assert (entries + [e])[..|entries|] == entries;
  }

  function RegistryOf(records: seq<Record>): Registry {
    if records == [] then map[] else AddRecord(RegistryOf(records[..|records| - 1]), records[|records| - 1])
  }

  function AddRecord(m: Registry, r: Record): Registry {
    m[r.sid := if r.sid in m then Combine(m[r.sid], r.entry) else r.entry]
  }

  method ClaudeLiveRegistry(records: seq<Record>) returns (m: Registry)
    ensures m == RegistryOf(records)
  {
    m := map[];
    for i := 0 to |records|
      invariant m == RegistryOf(records[..i])
    {
      assert records[..i + 1][..i] == records[..i];
      var sid, incoming := records[i].sid, records[i].entry;
      if sid in m {
        m := m[sid := Combine(m[sid], incoming)];
      } else {
        m := m[sid := incoming];
      }
    }
    assert records[..|records|] == records;
  }

  /** One entry per session, combined from all its files. */
  lemma {:induction false} RegistryIsFold(records: seq<Record>, sid: string)
    ensures sid in RegistryOf(records) <==> EntriesOf(records, sid) != []
    ensures sid in RegistryOf(records) ==> RegistryOf(records)[sid] == Fold(EntriesOf(records, sid))
  {
    if records != [] {
      var init, last := records[..|records| - 1], records[|records| - 1];
      RegistryIsFold(init, sid);
      var entries := EntriesOf(init, sid);
      if last.sid == sid {
        if entries == [] {
          assert entries + [last.entry] == [last.entry];
        } else {
          FoldMore(entries, last.entry);
        }
      } else {
        assert entries + [] == entries;
      }
    }
  }

  /** A session is dead exactly when every process recorded for it is: the order of the
      files does not matter. */
  lemma {:induction false} DeadIffAllDead(entries: seq<LiveEntry>)
    requires entries != []
    ensures Fold(entries).dead <==> forall e <- entries :: e.dead
  {
    var init, last := entries[..|entries| - 1], entries[|entries| - 1];
    assert entries == init + [last];
    if init != [] {
      DeadIffAllDead(init);
    }
  }

  /** The names some order of the entries can leave. A dead process' name survives only
      next to a live one without a name, or when none is live. */
  predicate CanKeep(entries: multiset<LiveEntry>, name: Option<string>) {
    match name
    case Some(_) =>
      || LiveEntry(name, false) in entries
      || (LiveEntry(name, true) in entries &&
          (LiveEntry(None, false) in entries || forall e <- entries :: e.dead))
    case None =>
      forall e <- entries :: e.name.None? || (e.dead && LiveEntry(None, false) in entries)
  }

  lemma {:induction false} FoldCanKeep(entries: seq<LiveEntry>)
    requires entries != []
    ensures CanKeep(multiset(entries), Fold(entries).name)
  {
    var init, last := entries[..|entries| - 1], entries[|entries| - 1];
    assert entries == init + [last];
    if init == [] {
      assert entries == [last];
    } else {
      FoldCanKeep(init);
      DeadIffAllDead(init);
      KeepMore(init, Fold(init), last);
    }
  }

  lemma {:induction false} KeepMore(init: seq<LiveEntry>, current: LiveEntry, last: LiveEntry)
    requires init != [] && CanKeep(multiset(init), current.name)
    requires current.dead <==> forall e <- init :: e.dead
    ensures CanKeep(multiset(init + [last]), Combine(current, last).name)
  {
    var all := multiset(init + [last]);
    assert forall e :: e in all <==> e in init || e == last;
    assert forall e :: e in multiset(init) <==> e in init;
  }

  /** What is kept once the front of the list has settled it. */
  lemma {:induction false} Settled(front: seq<LiveEntry>, rest: seq<LiveEntry>)
    requires front != []
    requires var e := Fold(front);
             || (e.name.Some? && (!e.dead || forall x <- rest :: x.dead))
             || (e.name.None? && !e.dead && forall x <- rest :: x.dead || x.name.None?)
             || (e.name.None? && forall x <- rest :: x.name.None?)
    ensures Fold(front + rest).name == Fold(front).name
    ensures Fold(front).name.Some? && Fold(front).dead ==> Fold(front + rest).dead
    ensures !Fold(front).dead ==> !Fold(front + rest).dead
  {
    if rest == [] {
      assert front + rest == front;
    } else {
      var init, last := rest[..|rest| - 1], rest[|rest| - 1];
      assert rest == init + [last];
      Settled(front, init);
      assert front + rest == (front + init) + [last];
      FoldMore(front + init, last);
    }
  }

  lemma {:induction false} FirstStays(entries: seq<LiveEntry>, e: LiveEntry) returns (order: seq<LiveEntry>)
    requires e in entries
    requires || (e.name.Some? && (!e.dead || forall x <- entries :: x.dead))
             || (e.name.None? && !e.dead && forall x <- entries :: x.dead || x.name.None?)
             || forall x <- entries :: x.name.None?
    ensures order != [] && multiset(order) == multiset(entries) && Fold(order).name == e.name
  {
    order := FirstOf(entries, e);
    var rest := order[1..];
    assert order == [e] + rest;
    assert forall x :: x in rest ==> x in multiset(entries);
    Settled([e], rest);
  }

  lemma {:induction false} DeadNameStays(entries: seq<LiveEntry>, dead: LiveEntry, live: LiveEntry)
    returns (order: seq<LiveEntry>)
    requires dead in entries && live in entries
    requires dead.dead && dead.name.Some? && live == LiveEntry(None, false)
    ensures order != [] && multiset(order) == multiset(entries) && Fold(order).name == dead.name
  {
    var first := FirstOf(entries, dead);
    assert live in multiset(entries);
    assert live in first[1..];
    var second := FirstOf(first[1..], live);
    var front, rest := [dead, live], second[1..];
    order := front + rest;
    assert second == [live] + rest;
    assert order == [dead] + second;
    assert front[..1] == [dead];
    Settled(front, rest);
  }

  /** Every such name is left by some order: with different candidates, the name shown
      depends on the order in which the directory is listed. */
  lemma {:induction false} KeptBySomeOrder(entries: seq<LiveEntry>, name: Option<string>)
    returns (order: seq<LiveEntry>)
    requires entries != [] && CanKeep(multiset(entries), name)
    ensures order != [] && multiset(order) == multiset(entries) && Fold(order).name == name
  {
    var live, dead := LiveEntry(name, false), LiveEntry(name, true);
    if live in multiset(entries) {
      assert live in entries;
      order := FirstStays(entries, live);
    } else if name.None? {
      order := FirstStays(entries, entries[0]);
    } else if LiveEntry(None, false) in multiset(entries) {
      assert dead in entries && LiveEntry(None, false) in entries;
      order := DeadNameStays(entries, dead, LiveEntry(None, false));
    } else {
      assert dead in entries;
      order := FirstStays(entries, dead);
    }
  }

  /** The name kept is the same for every order of the entries. */
  ghost predicate NameIsSettled(entries: seq<LiveEntry>)
    requires entries != []
  {
    forall order :: multiset(order) == multiset(entries) && order != [] ==> Fold(order).name == Fold(entries).name
  }

  /** An entry whose name can come to be shown: a live one, or a dead one that a nameless
      live one can take its name from, or a dead one where all are dead. */
  predicate CanShow(entries: seq<LiveEntry>, e: LiveEntry) {
    !e.dead || LiveEntry(None, false) in entries || forall x <- entries :: x.dead
  }

  /** All names that can be shown agree, and a nameless live entry next to a name has a named
      live one beside it. */
  predicate NamesAgree(entries: seq<LiveEntry>) {
    && (forall a, b |
          a in entries && b in entries && a.name.Some? && b.name.Some? && CanShow(entries, a) && CanShow(entries, b) ::
          a.name == b.name)
    && (LiveEntry(None, false) in entries && (exists e <- entries :: e.name.Some?) ==>
          exists e <- entries :: e.name.Some? && !e.dead)
  }

  lemma {:induction false} CanKeepIff(entries: seq<LiveEntry>, name: Option<string>)
    ensures CanKeep(multiset(entries), name) <==>
            if name.Some? then exists e <- entries :: e.name == name && CanShow(entries, e)
            else forall e <- entries :: e.name.Some? ==> e.dead && LiveEntry(None, false) in entries
  {
    assert forall e :: e in multiset(entries) <==> e in entries;
    if name.Some? {
      assert forall e :: e in entries && e.name == name ==> e == LiveEntry(name, false) || e == LiveEntry(name, true);
    }
  }

  /** The name kept does not depend on the order exactly when the names agree. */
  lemma {:induction false} NameOrderIff(entries: seq<LiveEntry>)
    requires entries != []
    ensures NameIsSettled(entries) <==> NamesAgree(entries)
  {
    if NamesAgree(entries) {
      forall order | multiset(order) == multiset(entries) && order != []
        ensures Fold(order).name == Fold(entries).name
      {
        FoldCanKeep(order);
        FoldCanKeep(entries);
        OneCandidate(entries, Fold(order).name, Fold(entries).name);
      }
    } else {
      var a, b := TwoCandidates(entries);
      var first := KeptBySomeOrder(entries, a);
      var second := KeptBySomeOrder(entries, b);
      assert Fold(first).name != Fold(second).name;
    }
  }

  lemma {:induction false} OneCandidate(entries: seq<LiveEntry>, a: Option<string>, b: Option<string>)
    requires entries != [] && NamesAgree(entries)
    requires CanKeep(multiset(entries), a) && CanKeep(multiset(entries), b)
    ensures a == b
  {
    CanKeepIff(entries, a);
    CanKeepIff(entries, b);
  }

  lemma {:induction false} TwoCandidates(entries: seq<LiveEntry>) returns (a: Option<string>, b: Option<string>)
    requires entries != [] && !NamesAgree(entries)
    ensures a != b && CanKeep(multiset(entries), a) && CanKeep(multiset(entries), b)
  {
    if x, y :| x in entries && y in entries && x.name.Some? && y.name.Some? &&
               CanShow(entries, x) && CanShow(entries, y) && x.name != y.name {
      a, b := x.name, y.name;
    } else {
      var x :| x in entries && x.name.Some?;
      a, b := x.name, None;
    }
    CanKeepIff(entries, a);
    CanKeepIff(entries, b);
  }

  /** A killed and resumed session whose new process has no name yet: it takes over the old
      name, or stays without one, depending on which file is read first. */
  lemma {:induction false} ResumedSessionNameDependsOnOrder(name: string)
    ensures var killed, resumed := LiveEntry(Some(name), true), LiveEntry(None, false);
            Fold([killed, resumed]).name == Some(name) && Fold([resumed, killed]).name == None
  {
    var killed, resumed := LiveEntry(Some(name), true), LiveEntry(None, false);
    assert [killed, resumed][..1] == [killed] && [resumed, killed][..1] == [resumed];
  }

  lemma {:induction false} FirstOf(entries: seq<LiveEntry>, e: LiveEntry) returns (order: seq<LiveEntry>)
    requires e in entries
    ensures order != [] && order[0] == e && multiset(order) == multiset(entries)
    ensures multiset(order) == multiset{e} + multiset(order[1..])
  {
    var i :| 0 <= i < |entries| && entries[i] == e;
    order := ToFront(entries, i);
    ToFrontPermutes(entries, i);
    assert order == [e] + order[1..];
  }

  // ----- Which worktree a project directory belongs to -----

  predicate IsAlphanumeric(c: char) {
    '0' <= c <= '9' || 'A' <= c <= 'Z' || 'a' <= c <= 'z'
  }

  function Dashed(s: string): string {
    if s == "" then "" else Dashed(s[..|s| - 1]) + [if IsAlphanumeric(s[|s| - 1]) then s[|s| - 1] else '-']
  }

  /** The directory name for an absolute path: separators are dashed like anything else. */
  function Slug(path: Path): string {
    if path == [] then "-" else Slugged(path)
  }

  function Slugged(path: Path): string {
    if path == [] then "" else Slugged(path[..|path| - 1]) + "-" + Dashed(path[|path| - 1])
  }

  /** A file of a project directory: what decides whether it is a session, and what is
      read from it. */
  datatype SessionFile = SessionFile(isFresh: bool, stem: string, mtime: int, firstText: Option<string>)

  /** An entry below the store: a directory, or a plain file when it has no listing. */
  datatype Project = Project(name: string, listing: Option<seq<SessionFile>>)

  function SessionOf(f: SessionFile, cwd: Path, live: Registry): Option<Session> {
    if !f.isFresh || CleanId(f.stem).None? then None
    else
      var known := f.stem in live;
      var name := if known && live[f.stem].name.Some? then live[f.stem].name else f.firstText;
      Some(Session(ClaudeCode, cwd, f.mtime, known && live[f.stem].dead, CleanId(f.stem).value, name))
  }

  function SessionsIn(files: seq<SessionFile>, cwd: Path, live: Registry): seq<Session> {
    if files == [] then []
    else
      var s := SessionOf(files[|files| - 1], cwd, live);
      SessionsIn(files[..|files| - 1], cwd, live) + if s.Some? then [s.value] else []
  }

  method ScanClaudeDir(files: seq<SessionFile>, cwd: Path, live: Registry, before: seq<Session>)
    returns (out: seq<Session>)
    ensures out == before + SessionsIn(files, cwd, live)
  {
    out := before;
    for i := 0 to |files|
      invariant out == before + SessionsIn(files[..i], cwd, live)
    {
      assert files[..i + 1][..i] == files[..i];
      var s := SessionOf(files[i], cwd, live);
      if s.Some? {
        out := out + [s.value];
      }
    }
    assert files[..|files|] == files;
  }

  /** The files of the directory a name leads to. */
  function FilesOf(projects: seq<Project>, name: string): seq<SessionFile> {
    if projects == [] then []
    else if projects[|projects| - 1].name == name then Files(projects[|projects| - 1])
    else FilesOf(projects[..|projects| - 1], name)
  }

  function Files(p: Project): seq<SessionFile> {
    if p.listing.Some? then p.listing.value else []
  }

  /** A worktree with its slug. */
  datatype Managed = Managed(path: Path, slug: string)

  function WithSlugs(paths: seq<Path>): (worktrees: seq<Managed>)
    ensures |worktrees| == |paths|
  {
    if paths == [] then []
    else WithSlugs(paths[..|paths| - 1]) + [Managed(paths[|paths| - 1], Slug(paths[|paths| - 1]))]
  }

  /** How many of the first `n` worktrees have this slug. */
  function Owners(worktrees: seq<Managed>, n: nat, slug: string): nat
    requires n <= |worktrees|
  {
    if n == 0 then 0 else Owners(worktrees, n - 1, slug) + if worktrees[n - 1].slug == slug then 1 else 0
  }

  predicate IsUnambiguous(worktrees: seq<Managed>, slug: string) {
    Owners(worktrees, |worktrees|, slug) == 1
  }

  /** What worktree `n - 1` adds to the claimed sessions. */
  function ClaimedBy(projects: seq<Project>, worktrees: seq<Managed>, n: nat, live: Registry): seq<Session>
    requires 0 < n <= |worktrees|
  {
    var wt := worktrees[n - 1];
    if IsUnambiguous(worktrees, wt.slug) then SessionsIn(FilesOf(projects, wt.slug), wt.path, live) else []
  }

  /** Sessions of the first `n` worktrees, each read from the directory of its slug. */
  function Claimed(projects: seq<Project>, worktrees: seq<Managed>, n: nat, live: Registry): seq<Session>
    requires n <= |worktrees|
  {
    if n == 0 then []
    else Claimed(projects, worktrees, n - 1, live) + ClaimedBy(projects, worktrees, n, live)
  }

  /** Sessions of the directories no worktree claims, each under its own directory. */
  function Swept(base: Path, projects: seq<Project>, worktrees: seq<Managed>, live: Registry): seq<Session> {
    if projects == [] then []
    else
      var p := projects[|projects| - 1];
      Swept(base, projects[..|projects| - 1], worktrees, live) + SweptOf(base, p, worktrees, live)
  }

  function SweptOf(base: Path, p: Project, worktrees: seq<Managed>, live: Registry): seq<Session> {
    if IsUnambiguous(worktrees, p.name) then [] else SessionsIn(Files(p), base + [p.name], live)
  }

  method ScanImpl(base: Path, projects: seq<Project>, paths: seq<Path>, records: seq<Record>, sweep: bool)
    returns (out: seq<Session>)
    ensures var worktrees, live := WithSlugs(paths), RegistryOf(records);
            out == Claimed(projects, worktrees, |paths|, live) +
                   if sweep then Swept(base, projects, worktrees, live) else []
  {
    var worktrees := WithSlugs(paths);
    var registry := ClaudeLiveRegistry(records);
    var claimed;
    out, claimed := ScanClaimed(projects, worktrees, registry);
    if sweep {
      out := Sweep(base, projects, worktrees, registry, claimed, out);
    }
  }

  /** The loop over the worktrees; `claimed` collects the slugs it has read. */
  method ScanClaimed(projects: seq<Project>, worktrees: seq<Managed>, live: Registry)
    returns (out: seq<Session>, claimed: set<string>)
    ensures out == Claimed(projects, worktrees, |worktrees|, live)
    ensures forall slug :: slug in claimed <==> IsUnambiguous(worktrees, slug)
  {
    out, claimed := [], {};
    for i := 0 to |worktrees|
      invariant out == Claimed(projects, worktrees, i, live)
      invariant forall slug :: slug in claimed <==> IsUnambiguous(worktrees, slug) && Owners(worktrees, i, slug) > 0
    {
      var slug := worktrees[i].slug;
      var count := CountSlug(worktrees, slug);
      if count > 1 {
        continue;
      }
      OwnersGrow(worktrees, i + 1, |worktrees|, slug);
      claimed := claimed + {slug};
      out := ScanClaudeDir(FilesOf(projects, slug), worktrees[i].path, live, out);
    }
  }

  method CountSlug(worktrees: seq<Managed>, slug: string) returns (count: nat)
    ensures count == Owners(worktrees, |worktrees|, slug)
  {
    count := 0;
    for i := 0 to |worktrees|
      invariant count == Owners(worktrees, i, slug)
    {
      if worktrees[i].slug == slug {
        count := count + 1;
      }
    }
  }

  lemma {:induction false} OwnersGrow(worktrees: seq<Managed>, i: nat, n: nat, slug: string)
    requires i <= n <= |worktrees|
    ensures Owners(worktrees, i, slug) <= Owners(worktrees, n, slug)
    decreases n
  {
    if i < n {
      OwnersGrow(worktrees, i, n - 1, slug);
    }
  }

  lemma {:induction false} SweptStep(
    base: Path, projects: seq<Project>, i: nat, worktrees: seq<Managed>, live: Registry, before: seq<Session>)
    requires i < |projects|
    ensures before + Swept(base, projects[..i + 1], worktrees, live) ==
            before + Swept(base, projects[..i], worktrees, live) + SweptOf(base, projects[i], worktrees, live)
  {
    assert projects[..i + 1][..i] == projects[..i];
  }

  lemma {:induction false} SweptEnds(
    base: Path, projects: seq<Project>, worktrees: seq<Managed>, live: Registry, before: seq<Session>)
    ensures before + Swept(base, projects[..0], worktrees, live) == before
    ensures projects[..|projects|] == projects
  {
  }

  /** The loop over the listing of the store. */
  method Sweep(
    base: Path, projects: seq<Project>, worktrees: seq<Managed>, live: Registry, claimed: set<string>,
    before: seq<Session>)
    returns (out: seq<Session>)
    requires forall slug :: slug in claimed <==> IsUnambiguous(worktrees, slug)
    ensures out == before + Swept(base, projects, worktrees, live)
  {
    out := before;
    SweptEnds(base, projects, worktrees, live, before);
    for i := 0 to |projects|
      invariant out == before + Swept(base, projects[..i], worktrees, live)
    {
      SweptStep(base, projects, i, worktrees, live, before);
      out := SweepEntry(base, projects[i], worktrees, live, claimed, out);
    }
  }

  /** The body of that loop: plain files and claimed directories are passed over. */
  method SweepEntry(
    base: Path, p: Project, worktrees: seq<Managed>, live: Registry, claimed: set<string>, before: seq<Session>)
    returns (out: seq<Session>)
    requires p.name in claimed <==> IsUnambiguous(worktrees, p.name)
    ensures out == before + SweptOf(base, p, worktrees, live)
  {
    if p.listing.None? || p.name in claimed {
      return before;
    }
    out := ScanClaudeDir(p.listing.value, base + [p.name], live, before);
  }

  // ----- Every directory once -----

  predicate DistinctNames(projects: seq<Project>) {
    forall i, j :: 0 <= i < j < |projects| ==> projects[i].name != projects[j].name
  }

  /** The working directory a project's sessions are given: the worktree with that slug
      when there is exactly one, and the directory itself otherwise. */
  function Owner(base: Path, worktrees: seq<Managed>, n: nat, name: string): Path
    requires n <= |worktrees|
  {
    if n == 0 then base + [name]
    else if worktrees[n - 1].slug == name then worktrees[n - 1].path
    else Owner(base, worktrees, n - 1, name)
  }

  function OwnerOf(base: Path, worktrees: seq<Managed>, name: string): Path {
    if IsUnambiguous(worktrees, name) then Owner(base, worktrees, |worktrees|, name) else base + [name]
  }

  /** All sessions of the store, directory by directory, under their owners. */
  function Everything(base: Path, projects: seq<Project>, worktrees: seq<Managed>, live: Registry): seq<Session> {
    if projects == [] then []
    else
      var p := projects[|projects| - 1];
      Everything(base, projects[..|projects| - 1], worktrees, live) +
      SessionsIn(Files(p), OwnerOf(base, worktrees, p.name), live)
  }

  lemma {:induction false} NoSuchProject(projects: seq<Project>, name: string)
    requires forall i :: 0 <= i < |projects| ==> projects[i].name != name
    ensures FilesOf(projects, name) == []
  {
    if projects != [] {
      var init := projects[..|projects| - 1];
      assert projects[|projects| - 1].name != name;
      assert forall i :: 0 <= i < |init| ==> init[i] == projects[i];
      NoSuchProject(init, name);
    }
  }

  /** What the first `n` worktrees claim of one directory. */
  function ClaimedOf(base: Path, p: Project, worktrees: seq<Managed>, n: nat, live: Registry): seq<Session>
    requires n <= |worktrees|
  {
    if IsUnambiguous(worktrees, p.name) && Owners(worktrees, n, p.name) > 0
    then SessionsIn(Files(p), Owner(base, worktrees, n, p.name), live) else []
  }

  /** How often a session is in a list. */
  function Times(sessions: seq<Session>, s: Session): nat {
    multiset(sessions)[s]
  }

  lemma {:induction false} TimesAppend(a: seq<Session>, b: seq<Session>, s: Session)
    ensures Times(a + b, s) == Times(a, s) + Times(b, s)
  {
  }

  /** One directory more, at the end of the listing. */
  predicate IsLonger(all: seq<Project>, init: seq<Project>, p: Project) {
    |all| == |init| + 1 && init == all[..|init|] && p == all[|init|]
  }

  /** A worktree claims from one more directory what that directory is claimed for. */
  lemma {:induction false} ClaimedByOne(
    all: seq<Project>, base: Path, init: seq<Project>, p: Project, worktrees: seq<Managed>, n: nat, live: Registry,
    s: Session)
    requires IsLonger(all, init, p) && DistinctNames(all) && 0 < n <= |worktrees|
    ensures Times(ClaimedBy(all, worktrees, n, live), s) + Times(ClaimedOf(base, p, worktrees, n - 1, live), s) ==
            Times(ClaimedBy(init, worktrees, n, live), s) + Times(ClaimedOf(base, p, worktrees, n, live), s)
  {
    if worktrees[n - 1].slug == p.name {
      OwnersGrow(worktrees, n, |worktrees|, p.name);
      assert forall i :: 0 <= i < |init| ==> init[i] == all[i] && all[i].name != all[|init|].name;
      NoSuchProject(init, p.name);
      assert ClaimedBy(init, worktrees, n, live) == [] && ClaimedOf(base, p, worktrees, n - 1, live) == [];
    } else {
      assert FilesOf(all, worktrees[n - 1].slug) == FilesOf(init, worktrees[n - 1].slug);
    }
  }

  /** What one more directory adds to the claimed sessions: its own, under the worktree of
      its slug, once that worktree is among the first `n`. */
  lemma {:induction false} ClaimedMore(
    all: seq<Project>, base: Path, init: seq<Project>, p: Project, worktrees: seq<Managed>, n: nat, live: Registry,
    s: Session)
    requires IsLonger(all, init, p) && DistinctNames(all) && n <= |worktrees|
    ensures Times(Claimed(all, worktrees, n, live), s) ==
            Times(Claimed(init, worktrees, n, live), s) + Times(ClaimedOf(base, p, worktrees, n, live), s)
    decreases n
  {
    if n == 0 {
      NoneClaimed(all, base, init, p, worktrees, live);
    } else {
      ClaimedMore(all, base, init, p, worktrees, n - 1, live, s);
      ClaimedByOne(all, base, init, p, worktrees, n, live, s);
      ClaimedStep(all, worktrees, n, live, s);
      ClaimedStep(init, worktrees, n, live, s);
    }
  }

  lemma {:induction false} NoneClaimed(
    all: seq<Project>, base: Path, init: seq<Project>, p: Project, worktrees: seq<Managed>, live: Registry)
    ensures Claimed(all, worktrees, 0, live) == Claimed(init, worktrees, 0, live) == []
    ensures ClaimedOf(base, p, worktrees, 0, live) == []
  {
  }

  lemma {:induction false} ClaimedStep(
    projects: seq<Project>, worktrees: seq<Managed>, n: nat, live: Registry, s: Session)
    requires 0 < n <= |worktrees|
    ensures Times(Claimed(projects, worktrees, n, live), s) ==
            Times(Claimed(projects, worktrees, n - 1, live), s) + Times(ClaimedBy(projects, worktrees, n, live), s)
  {
    TimesAppend(Claimed(projects, worktrees, n - 1, live), ClaimedBy(projects, worktrees, n, live), s);
  }

  lemma {:induction false} ClaimedWithOne(
    all: seq<Project>, base: Path, init: seq<Project>, p: Project, worktrees: seq<Managed>, live: Registry)
    requires IsLonger(all, init, p) && DistinctNames(all)
    ensures multiset(Claimed(all, worktrees, |worktrees|, live)) ==
            multiset(Claimed(init, worktrees, |worktrees|, live)) +
            multiset(ClaimedOf(base, p, worktrees, |worktrees|, live))
  {
    var whole, before := Claimed(all, worktrees, |worktrees|, live), Claimed(init, worktrees, |worktrees|, live);
    var more := ClaimedOf(base, p, worktrees, |worktrees|, live);
    forall s
      ensures multiset(whole)[s] == (multiset(before) + multiset(more))[s]
    {
      ClaimedMore(all, base, init, p, worktrees, |worktrees|, live, s);
      assert Times(whole, s) == Times(before, s) + Times(more, s);
    }
  }

  /** A directory is either claimed or swept, under its owner. */
  lemma {:induction false} ClaimedOrSwept(base: Path, p: Project, worktrees: seq<Managed>, live: Registry)
    ensures ClaimedOf(base, p, worktrees, |worktrees|, live) + SweptOf(base, p, worktrees, live) ==
            SessionsIn(Files(p), OwnerOf(base, worktrees, p.name), live)
  {
  }

  lemma {:induction false} SweptMore(
    base: Path, init: seq<Project>, p: Project, worktrees: seq<Managed>, live: Registry)
    ensures Swept(base, init + [p], worktrees, live) ==
            Swept(base, init, worktrees, live) + SweptOf(base, p, worktrees, live)
    ensures Everything(base, init + [p], worktrees, live) ==
            Everything(base, init, worktrees, live) + SessionsIn(Files(p), OwnerOf(base, worktrees, p.name), live)
  {
    assert (init + [p])[..|init|] == init;
  }

  /** The full scan reads every directory of the store exactly once, whatever worktrees
      there are: nothing is lost, nothing is listed twice, and a directory that two
      worktrees could mean is given to neither. */
  lemma {:induction false} EveryDirectoryOnce(
    base: Path, projects: seq<Project>, worktrees: seq<Managed>, live: Registry)
    requires DistinctNames(projects)
    ensures multiset(Claimed(projects, worktrees, |worktrees|, live)) +
            multiset(Swept(base, projects, worktrees, live)) ==
            multiset(Everything(base, projects, worktrees, live))
  {
    if projects == [] {
      NothingClaimed(worktrees, |worktrees|, live);
    } else {
      var init, p, n := projects[..|projects| - 1], projects[|projects| - 1], |worktrees|;
      EveryDirectoryOnce(base, init, worktrees, live);
      assert projects == init + [p];
      ClaimedWithOne(projects, base, init, p, worktrees, live);
      SweptMore(base, init, p, worktrees, live);
      ClaimedOrSwept(base, p, worktrees, live);
      SumOfParts(
        multiset(Claimed(init, worktrees, n, live)), multiset(Swept(base, init, worktrees, live)),
        ClaimedOf(base, p, worktrees, n, live), SweptOf(base, p, worktrees, live));
    }
  }

  lemma {:induction false} SumOfParts<T>(a: multiset<T>, b: multiset<T>, c: seq<T>, d: seq<T>)
    ensures a + multiset(c) + (b + multiset(d)) == a + b + multiset(c + d)
  {
  }

  lemma {:induction false} NothingClaimed(worktrees: seq<Managed>, n: nat, live: Registry)
    requires n <= |worktrees|
    ensures Claimed([], worktrees, n, live) == []
  {
    if n > 0 {
      NothingClaimed(worktrees, n - 1, live);
      assert SessionsIn([], worktrees[n - 1].path, live) == [];
    }
  }

  /** Two paths with one slug. */
  lemma {:induction false} SlugsCollide()
    ensures Slug(["a", "b-c"]) == Slug(["a", "b", "c"])
  {
    assert ["a", "b-c"][..1] == ["a"] && ["a"][..0] == [];
    assert ["a", "b", "c"][..2] == ["a", "b"] && ["a", "b"][..1] == ["a"];
    assert "b-c"[..2] == "b-" && "b-"[..1] == "b" && "b"[..0] == "" && "a"[..0] == "" && "c"[..0] == "";
  }

  // ----- What is read, and from where -----

  /** The first name there is. */
  function FirstName(entries: seq<LiveEntry>): Option<string> {
    if entries == [] then None
    else
      var before := FirstName(entries[..|entries| - 1]);
      if before.Some? then before else entries[|entries| - 1].name
  }

  function Running(entries: seq<LiveEntry>): seq<LiveEntry> {
    if entries == [] then []
    else
      var last := entries[|entries| - 1];
      Running(entries[..|entries| - 1]) + if last.dead then [] else [last]
  }

  /** When all processes are dead, the first name is kept. */
  lemma {:induction false} DeadNameIs(entries: seq<LiveEntry>)
    requires entries != [] && forall i :: 0 <= i < |entries| ==> entries[i].dead
    ensures Fold(entries).dead && Fold(entries).name == FirstName(entries)
  {
    var init := entries[..|entries| - 1];
    if init != [] {
      DeadNameIs(init);
    }
  }

  /** The name that is kept, where the first live entry is at `live`: its own name; else the
      first name of the dead ones before it; else the first name of the live ones behind
      it. */
  lemma {:induction false} KeptNameIs(entries: seq<LiveEntry>, live: nat)
    requires live < |entries| && !entries[live].dead && forall i :: 0 <= i < live ==> entries[i].dead
    ensures !Fold(entries).dead
    ensures Fold(entries).name ==
            if entries[live].name.Some? then entries[live].name
            else if FirstName(entries[..live]).Some? then FirstName(entries[..live])
            else FirstName(Running(entries[live + 1..]))
    decreases |entries|
  {
    var init, last := entries[..|entries| - 1], entries[|entries| - 1];
    if live == |init| {
      assert entries[..live] == init && entries[live + 1..] == [];
      if init != [] {
        DeadNameIs(init);
      }
    } else {
      KeptNameIs(init, live);
      assert entries[live + 1..] == init[live + 1..] + [last] && entries[..live] == init[..live];
      RunningMore(init[live + 1..], last);
    }
  }

  lemma {:induction false} RunningMore(entries: seq<LiveEntry>, e: LiveEntry)
    ensures var first := FirstName(Running(entries));
            FirstName(Running(entries + [e])) == if first.Some? || e.dead then first else e.name
  {
    assert (entries + [e])[..|entries|] == entries;
    assert !e.dead ==> (Running(entries) + [e])[..|Running(entries)|] == Running(entries);
    assert e.dead ==> Running(entries + [e]) == Running(entries);
  }

  /** Some registry file speaks of the session. */
  predicate IsRegistered(records: seq<Record>, sid: string) {
    exists r <- records :: r.sid == sid
  }

  lemma {:induction false} EntriesAre(records: seq<Record>, sid: string, e: LiveEntry)
    ensures e in EntriesOf(records, sid) <==> Record(sid, e) in records
  {
    if records != [] {
      EntriesAre(records[..|records| - 1], sid, e);
      assert records == records[..|records| - 1] + [records[|records| - 1]];
    }
  }

  /** What becomes of a session file, from the registry files that were read: a fresh one
      whose id does not vanish is a session. It has ended exactly when it is registered and
      every process registered for it is dead, and without a registered name it is called by
      its first text. */
  lemma {:induction false} SessionIs(f: SessionFile, cwd: Path, records: seq<Record>)
    ensures var s := SessionOf(f, cwd, RegistryOf(records));
            && (s.Some? <==> f.isFresh && exists c <- f.stem :: !IsControl(c))
            && (s.Some? ==>
                  && s.value.kind == ClaudeCode && s.value.cwd == cwd && s.value.lastActivity == f.mtime
                  && Some(s.value.id) == CleanId(f.stem)
                  && (s.value.ended <==>
                        IsRegistered(records, f.stem) && forall r <- records | r.sid == f.stem :: r.entry.dead)
                  && s.value.name ==
                     var entries := EntriesOf(records, f.stem);
                     if entries != [] && Fold(entries).name.Some? then Fold(entries).name else f.firstText)
  {
    var entries := EntriesOf(records, f.stem);
    RegistryIsFold(records, f.stem);
    SomePrintable(f.stem);
    forall e ensures e in entries <==> Record(f.stem, e) in records {
      EntriesAre(records, f.stem, e);
    }
    if entries != [] {
      DeadIffAllDead(entries);
      assert entries[0] in entries;
    }
  }

  // ----- The directory of a path -----

  /** The text of an absolute path. */
  function PathText(path: Path): string {
    if path == [] then "/" else Rooted(path)
  }

  function Rooted(path: Path): string {
    if path == [] then "" else Rooted(path[..|path| - 1]) + "/" + path[|path| - 1]
  }

  predicate IsSlugOf(slug: string, text: string) {
    |slug| == |text| &&
    forall i :: 0 <= i < |text| ==>
      slug[i] == var c := text[i];
                 if '0' <= c <= '9' || 'A' <= c <= 'Z' || 'a' <= c <= 'z' then c else '-'
  }

  /** A slug is the text of the path, with a dash for every character but letters and
      digits. */
  lemma {:induction false} SlugIs(path: Path)
    ensures IsSlugOf(Slug(path), PathText(path))
  {
    SluggedIs(path);
  }

  lemma {:induction false} SluggedIs(path: Path)
    ensures IsSlugOf(Slugged(path), Rooted(path))
  {
    if path != [] {
      SluggedIs(path[..|path| - 1]);
      DashedIs(path[|path| - 1]);
    }
  }

  lemma {:induction false} DashedIs(s: string)
    ensures IsSlugOf(Dashed(s), s)
  {
    if s != "" {
      DashedIs(s[..|s| - 1]);
    }
  }
}
