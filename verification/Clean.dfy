/** Sizing, gating and deleting build artifacts: what is freed is exactly what the tree
    loses. */
module Clean {
  import opened Wrappers
  import opened CleanDirs

  const U64_MAX: nat := 0xffff_ffff_ffff_ffff

  type U64 = n: nat | n <= U64_MAX

  // ----- The tree -----

  datatype Node = File(len: U64) | Symlink | Special | Dir(entries: seq<Entry>)

  datatype Entry = Entry(name: string, node: Node)

  /** Bytes of the regular files of a tree; links are not followed. */
  function NodeSize(node: Node): nat
    decreases node
  {
    match node
    case File(len) => len
    case Dir(entries) => EntriesSize(entries)
    case _ => 0
  }

  function EntriesSize(entries: seq<Entry>): nat
    decreases entries
  {
    if entries == [] then 0
    else EntriesSize(entries[..|entries| - 1]) + NodeSize(entries[|entries| - 1].node)
  }

  /** A sum kept within 64 bits by saturating. */
  function Saturate(n: nat): U64 {
    if n <= U64_MAX then n else U64_MAX
  }

  function SaturatingAdd(a: U64, b: U64): U64 {
    Saturate(a + b)
  }

  /** Saturating step by step is saturating the true sum once. */
  lemma {:induction false} SaturateSum(a: nat, b: nat)
    ensures SaturatingAdd(Saturate(a), Saturate(b)) == Saturate(a + b)
  {
  }

  method DirSize(entries: seq<Entry>) returns (total: U64)
    ensures total == Saturate(EntriesSize(entries))
    ensures EntriesSize(entries) < 0x1_0000_0000_0000_0000 ==> total == EntriesSize(entries)
    ensures EntriesSize(entries) >= 0x1_0000_0000_0000_0000 ==> total == 0xffff_ffff_ffff_ffff
    decreases entries
  {
    total := 0;
    for i := 0 to |entries|
      invariant total == Saturate(EntriesSize(entries[..i]))
    {
      assert entries[..i + 1][..i] == entries[..i];
      SaturateSum(EntriesSize(entries[..i]), NodeSize(entries[i].node));
      match entries[i].node
      case Symlink => continue;
      case Special => continue;
      case Dir(children) =>
        var size := DirSize(children);
        total := SaturatingAdd(total, size);
      case File(len) =>
        total := SaturatingAdd(total, len);
    }
    assert entries[..|entries|] == entries;
  }

  /** What one more entry adds, wherever it stands: a file its length, a directory what is
      in it, and a link nothing. */
  lemma {:induction false} SizeOfOneMore(before: seq<Entry>, e: Entry, after: seq<Entry>)
    ensures EntriesSize(before + [e] + after) == EntriesSize(before + after) +
              if e.node.File? then e.node.len else if e.node.Dir? then EntriesSize(e.node.entries) else 0
  {
    var all, others := before + [e] + after, before + after;
    if after == [] {
      assert all[..|all| - 1] == before == others;
    } else {
      var init := after[..|after| - 1];
      SizeOfOneMore(before, e, init);
      assert all[..|all| - 1] == before + [e] + init && others[..|others| - 1] == before + init;
    }
  }

  // ----- Scanning -----

  datatype Artifact = Artifact(rel: string, bytes: U64)

  function Lookup(root: seq<Entry>, name: string): Option<Node> {
    if root == [] then None
    else if root[|root| - 1].name == name then Some(root[|root| - 1].node)
    else Lookup(root[..|root| - 1], name)
  }

  predicate IsArtifact(root: seq<Entry>, name: string) {
    Lookup(root, name).Some? && Lookup(root, name).value.Dir?
  }

  /** The artifact a name stands for. */
  function Sized(root: seq<Entry>, pat: string): Artifact
    requires IsArtifact(root, pat)
  {
    Artifact(pat, Saturate(NodeSize(Lookup(root, pat).value)))
  }

  function Found(root: seq<Entry>, patterns: seq<string>): seq<Artifact> {
    if patterns == [] then []
    else
      var pat := patterns[|patterns| - 1];
      Found(root, patterns[..|patterns| - 1]) + if IsArtifact(root, pat) then [Sized(root, pat)] else []
  }

  lemma {:induction false} FoundMore(root: seq<Entry>, patterns: seq<string>, i: nat)
    requires i < |patterns|
    ensures Found(root, patterns[..i + 1]) ==
            Found(root, patterns[..i]) + if IsArtifact(root, patterns[i]) then [Sized(root, patterns[i])] else []
  {
    assert patterns[..i + 1][..i] == patterns[..i];
  }

  function TotalBytes(artifacts: seq<Artifact>): nat {
    if artifacts == [] then 0 else TotalBytes(artifacts[..|artifacts| - 1]) + artifacts[|artifacts| - 1].bytes
  }

  lemma {:induction false} TotalMore(artifacts: seq<Artifact>, a: Artifact)
    ensures TotalBytes(artifacts + [a]) == TotalBytes(artifacts) + a.bytes
  {
    assert (artifacts + [a])[..|artifacts|] == artifacts;
  }

  lemma {:induction false} CountOne(artifacts: seq<Artifact>, total: U64, a: Artifact)
    requires total == Saturate(TotalBytes(artifacts))
    ensures SaturatingAdd(total, a.bytes) == Saturate(TotalBytes(artifacts + [a]))
  {
    TotalMore(artifacts, a);
  }

  method ScanWorktree(root: seq<Entry>, patterns: seq<string>) returns (artifacts: seq<Artifact>, total: U64)
    ensures artifacts == Found(root, patterns)
    ensures total == Saturate(TotalBytes(artifacts))
  {
    artifacts, total := [], 0;
    for i := 0 to |patterns|
      invariant artifacts == Found(root, patterns[..i])
      invariant total == Saturate(TotalBytes(artifacts))
    {
      var node := Lookup(root, patterns[i]);
      FoundMore(root, patterns, i);
      if node.None? || !node.value.Dir? {
        continue;
      }
      var bytes := DirSize(node.value.entries);
      assert Artifact(patterns[i], bytes) == Sized(root, patterns[i]);
      CountOne(artifacts, total, Artifact(patterns[i], bytes));
      total := SaturatingAdd(total, bytes);
      artifacts := artifacts + [Artifact(patterns[i], bytes)];
    }
    assert patterns[..|patterns|] == patterns;
  }

  /** The artifacts that pass the gate, or those that do not, in order. */
  function Gated(artifacts: seq<Artifact>, safe: set<string>, wanted: bool): seq<Artifact> {
    if artifacts == [] then []
    else
      Gated(artifacts[..|artifacts| - 1], safe, wanted) +
      if (artifacts[|artifacts| - 1].rel in safe) == wanted then [artifacts[|artifacts| - 1]] else []
  }

  function Rels(artifacts: seq<Artifact>): seq<string> {
    if artifacts == [] then [] else Rels(artifacts[..|artifacts| - 1]) + [artifacts[|artifacts| - 1].rel]
  }

  lemma {:induction false} RelsMore(artifacts: seq<Artifact>, a: Artifact)
    ensures Rels(artifacts + [a]) == Rels(artifacts) + [a.rel]
    ensures RelSet(artifacts + [a]) == RelSet(artifacts) + {a.rel}
  {
    assert (artifacts + [a])[..|artifacts|] == artifacts;
  }

  lemma {:induction false} GatedMore(artifacts: seq<Artifact>, a: Artifact, safe: set<string>, wanted: bool)
    ensures Gated(artifacts + [a], safe, wanted) ==
            Gated(artifacts, safe, wanted) + if (a.rel in safe) == wanted then [a] else []
  {
    assert (artifacts + [a])[..|artifacts|] == artifacts;
  }

  function RelSet(artifacts: seq<Artifact>): set<string> {
    set a <- artifacts :: a.rel
  }

  /** The safe entry point. The total it reports is a plain 64-bit sum, which wraps. */
  method ScanWorktreeSafe(root: seq<Entry>, patterns: seq<string>, safe: set<string>)
    returns (deletable: seq<Artifact>, total: U64, skipped: seq<string>)
    ensures deletable == Gated(Found(root, patterns), safe, true)
    ensures skipped == Rels(Gated(Found(root, patterns), safe, false))
    ensures total == TotalBytes(deletable) % 0x1_0000_0000_0000_0000
  {
    var found, _ := ScanWorktree(root, patterns);
    deletable, skipped := Partition(found, safe);
    total := WrappingSum(deletable);
  }

  /** The gate's loop. */
  method Partition(found: seq<Artifact>, safe: set<string>)
    returns (deletable: seq<Artifact>, skipped: seq<string>)
    ensures deletable == Gated(found, safe, true)
    ensures skipped == Rels(Gated(found, safe, false))
  {
    deletable, skipped := [], [];
    for i := 0 to |found|
      invariant deletable == Gated(found[..i], safe, true)
      invariant skipped == Rels(Gated(found[..i], safe, false))
    {
      assert found[..i + 1] == found[..i] + [found[i]];
      GatedMore(found[..i], found[i], safe, true);
      GatedMore(found[..i], found[i], safe, false);
      RelsMore(Gated(found[..i], safe, false), found[i]);
      if found[i].rel in safe {
        deletable := deletable + [found[i]];
        assert Gated(found[..i + 1], safe, false) == Gated(found[..i], safe, false);
      } else {
        skipped := skipped + [found[i].rel];
        assert Gated(found[..i + 1], safe, true) == Gated(found[..i], safe, true);
      }
    }
    assert found[..|found|] == found;
  }

  method WrappingSum(artifacts: seq<Artifact>) returns (total: U64)
    ensures total == TotalBytes(artifacts) % (U64_MAX + 1)
  {
    total := 0;
    for i := 0 to |artifacts|
      invariant total == TotalBytes(artifacts[..i]) % (U64_MAX + 1)
    {
      assert artifacts[..i + 1][..i] == artifacts[..i];
      total := (total + artifacts[i].bytes) % (U64_MAX + 1);
    }
    assert artifacts[..|artifacts|] == artifacts;
  }

  /** Nothing found is lost by the gate, and nothing is on both sides of it. */
  lemma {:induction false} GatePartitions(artifacts: seq<Artifact>, safe: set<string>)
    ensures multiset(Gated(artifacts, safe, true)) + multiset(Gated(artifacts, safe, false)) == multiset(artifacts)
    ensures forall a <- Gated(artifacts, safe, true) :: a.rel in safe
    ensures forall a <- Gated(artifacts, safe, false) :: a.rel !in safe
  {
    if artifacts != [] {
      assert artifacts == artifacts[..|artifacts| - 1] + [artifacts[|artifacts| - 1]];
      GatePartitions(artifacts[..|artifacts| - 1], safe);
    }
  }

  // ----- Deleting -----

  function Without(root: seq<Entry>, names: set<string>): seq<Entry> {
    if root == [] then []
    else
      Without(root[..|root| - 1], names) + if root[|root| - 1].name in names then [] else [root[|root| - 1]]
  }

  /** What one attempt to remove a directory answers. An attempt that fails leaves some
      part of the directory behind. */
  datatype Outcome = Removed | NotFound | NotEmpty(left: seq<Entry>) | Failed(left: seq<Entry>)

  predicate Succeeds(o: Outcome) {
    o.Removed? || o.NotFound?
  }

  const REMOVE_ATTEMPTS := 3

  /** The bounded retry: another pass only while the directory keeps refilling. */
  method RemoveDirAllTolerant(outcomes: seq<Outcome>) returns (ok: bool, attempts: nat)
    requires |outcomes| >= 3
    ensures 1 <= attempts <= 3
    ensures forall i :: 0 <= i < attempts - 1 ==> outcomes[i].NotEmpty?
    ensures attempts < 3 ==> !outcomes[attempts - 1].NotEmpty?
    ensures ok <==> outcomes[attempts - 1] == Removed || outcomes[attempts - 1] == NotFound
  {
    attempts := 0;
    while true
      invariant attempts < REMOVE_ATTEMPTS
      invariant forall i :: 0 <= i < attempts ==> outcomes[i].NotEmpty?
      decreases REMOVE_ATTEMPTS - attempts
    {
      attempts := attempts + 1;
      match outcomes[attempts - 1]
      case Removed => return true, attempts;
      case NotFound => return true, attempts;
      case NotEmpty(_) =>
        if attempts < REMOVE_ATTEMPTS {
          continue;
        }
        return false, attempts;
      case Failed(_) => return false, attempts;
    }
  }

  /** The answers to three attempts. */
  datatype Attempts = Attempts(first: Outcome, second: Outcome, third: Outcome)

  /** The answer that decides. */
  function Deciding(a: Attempts): Outcome {
    if !a.first.NotEmpty? then a.first else if !a.second.NotEmpty? then a.second else a.third
  }

  /** The answers for each directory; one that is not mentioned goes at the first attempt. */
  type Answers = map<string, Attempts>

  function AnswerFor(answers: Answers, name: string): Outcome {
    if name in answers then Deciding(answers[name]) else Removed
  }

  /** A directory of which only `left` is still there. */
  function WithLeft(root: seq<Entry>, name: string, left: seq<Entry>): seq<Entry> {
    if root == [] then []
    else
      var last := root[|root| - 1];
      WithLeft(root[..|root| - 1], name, left) + [if last.name == name then Entry(name, Dir(left)) else last]
  }

  /** What is there after the deletions, and whether all succeeded; the first that fails is
      the last that is tried. */
  function Deleted(root: seq<Entry>, artifacts: seq<Artifact>, answers: Answers): (seq<Entry>, bool) {
    if artifacts == [] then (root, true)
    else
      var (before, ok) := Deleted(root, artifacts[..|artifacts| - 1], answers);
      var name := artifacts[|artifacts| - 1].rel;
      var answer := AnswerFor(answers, name);
      if !ok then (before, false)
      else if Succeeds(answer) then (Without(before, {name}), true)
      else (WithLeft(before, name, answer.left), false)
  }

  /** A worktree on disk. */
  class Worktree {
    var root: seq<Entry>

    constructor (root: seq<Entry>)
      ensures this.root == root
    {
      this.root := root;
    }

    /** Asks for a directory to be removed, up to three times. */
    method RemoveDirAll(name: string, answers: Answers) returns (ok: bool)
      modifies this
      ensures ok <==> Succeeds(AnswerFor(answers, name))
      ensures ok ==> root == Without(old(root), {name})
      ensures !ok ==> root == WithLeft(old(root), name, AnswerFor(answers, name).left)
    {
      var a := if name in answers then answers[name] else Attempts(Removed, Removed, Removed);
      var outcomes := [a.first, a.second, a.third];
      var attempts;
      ok, attempts := RemoveDirAllTolerant(outcomes);
      assert outcomes[0] == a.first && outcomes[1] == a.second && outcomes[2] == a.third;
      assert outcomes[attempts - 1] == Deciding(a) == AnswerFor(answers, name);
      root := if ok then Without(root, {name}) else WithLeft(root, name, outcomes[attempts - 1].left);
    }

    /** Deletes one artifact after the other, and stops at the first that cannot be
        removed. */
    method DeleteReclaim(artifacts: seq<Artifact>, answers: Answers) returns (freed: Option<U64>)
      modifies this
      ensures (root, freed.Some?) == Deleted(old(root), artifacts, answers)
      ensures freed.Some? ==> freed.value == Saturate(TotalBytes(artifacts))
    {
      var total: U64 := 0;
      for i := 0 to |artifacts|
        invariant Deleted(old(root), artifacts[..i], answers) == (root, true)
        invariant total == Saturate(TotalBytes(artifacts[..i]))
      {
        assert artifacts[..i + 1][..i] == artifacts[..i];
        var ok := RemoveDirAll(artifacts[i].rel, answers);
        if !ok {
          FirstFailureEnds(old(root), artifacts, i + 1, answers);
          return None;
        }
        total := SaturatingAdd(total, artifacts[i].bytes);
      }
      assert artifacts[..|artifacts|] == artifacts;
      freed := Some(total);
    }
  }

  lemma {:induction false} FirstFailureEnds(root: seq<Entry>, artifacts: seq<Artifact>, i: nat, answers: Answers)
    requires i <= |artifacts| && !Deleted(root, artifacts[..i], answers).1
    ensures Deleted(root, artifacts, answers) == Deleted(root, artifacts[..i], answers)
    decreases |artifacts|
  {
    if i == |artifacts| {
      assert artifacts[..i] == artifacts;
    } else {
      assert artifacts[..|artifacts| - 1][..i] == artifacts[..i];
      FirstFailureEnds(root, artifacts[..|artifacts| - 1], i, answers);
    }
  }

  /** When every deletion succeeds, exactly the named entries are gone. */
  lemma {:induction false} AllDeleted(root: seq<Entry>, artifacts: seq<Artifact>, answers: Answers)
    requires Deleted(root, artifacts, answers).1
    ensures Deleted(root, artifacts, answers).0 == Without(root, RelSet(artifacts))
  {
    if artifacts == [] {
      WithoutNothing(root);
      assert RelSet(artifacts) == {};
    } else {
      var init, last := artifacts[..|artifacts| - 1], artifacts[|artifacts| - 1];
      AllDeleted(root, init, answers);
      assert artifacts == init + [last];
      RelsMore(init, last);
      WithoutTwice(root, RelSet(init), {last.rel});
    }
  }

  /** Whether or not the deletions succeed, every entry with another name is as it was. */
  lemma {:induction false} OthersUntouched(root: seq<Entry>, artifacts: seq<Artifact>, answers: Answers)
    ensures Without(Deleted(root, artifacts, answers).0, RelSet(artifacts)) == Without(root, RelSet(artifacts))
  {
    if artifacts != [] {
      var init, last := artifacts[..|artifacts| - 1], artifacts[|artifacts| - 1];
      var before := Deleted(root, init, answers).0;
      OthersUntouched(root, init, answers);
      assert artifacts == init + [last];
      RelsMore(init, last);
      WithoutTwice(root, RelSet(init), {last.rel});
      WithoutTwice(before, RelSet(init), {last.rel});
      OneUntouched(before, last.rel, AnswerFor(answers, last.rel), RelSet(artifacts));
    }
  }

  predicate AllSucceed(names: set<string>, answers: Answers) {
    forall name <- names :: Succeeds(AnswerFor(answers, name))
  }

  /** They all succeed exactly when each succeeds on its own. */
  lemma {:induction false} DeletedIff(root: seq<Entry>, artifacts: seq<Artifact>, answers: Answers)
    ensures Deleted(root, artifacts, answers).1 <==> AllSucceed(RelSet(artifacts), answers)
  {
    if artifacts != [] {
      var init, last := artifacts[..|artifacts| - 1], artifacts[|artifacts| - 1];
      DeletedIff(root, init, answers);
      assert artifacts == init + [last];
      RelsMore(init, last);
    }
  }

  lemma {:induction false} OneUntouched(root: seq<Entry>, name: string, answer: Outcome, names: set<string>)
    requires name in names
    ensures Without(Without(root, {name}), names) == Without(root, names)
    ensures !Succeeds(answer) ==> Without(WithLeft(root, name, answer.left), names) == Without(root, names)
  {
    WithoutTwice(root, {name}, names);
    assert {name} + names == names;
    if !Succeeds(answer) {
      LeftIsNamed(root, name, answer.left, names);
    }
  }

  lemma {:induction false} LeftIsNamed(root: seq<Entry>, name: string, left: seq<Entry>, names: set<string>)
    requires name in names
    ensures Without(WithLeft(root, name, left), names) == Without(root, names)
  {
    if root != [] {
      var init, last := root[..|root| - 1], root[|root| - 1];
      LeftIsNamed(init, name, left, names);
      WithoutMore(WithLeft(init, name, left), if last.name == name then Entry(name, Dir(left)) else last, names);
    }
  }

  lemma {:induction false} WithoutNothing(root: seq<Entry>)
    ensures Without(root, {}) == root
  {
    if root != [] {
      WithoutNothing(root[..|root| - 1]);
    }
  }

  lemma {:induction false} WithoutMore(root: seq<Entry>, e: Entry, names: set<string>)
    ensures Without(root + [e], names) == Without(root, names) + if e.name in names then [] else [e]
  {
    assert (root + [e])[..|root|] == root;
  }

  lemma {:induction false} WithoutTwice(root: seq<Entry>, a: set<string>, b: set<string>)
    ensures Without(Without(root, a), b) == Without(root, a + b)
  {
    if root != [] {
      var init, last := root[..|root| - 1], root[|root| - 1];
      WithoutTwice(init, a, b);
      if last.name in a {
        assert Without(root, a) == Without(init, a);
      } else {
        WithoutMore(Without(init, a), last, b);
      }
    }
  }

  // ----- Conservation -----

  predicate DistinctNames(root: seq<Entry>) {
    forall i, j :: 0 <= i < j < |root| ==> root[i].name != root[j].name
  }

  /** A directory on which all of the gate's conditions hold. */
  predicate MayGo(e: Entry, patterns: seq<string>, safe: set<string>) {
    e.node.Dir? && e.name in patterns && e.name in safe
  }

  /** What a clean leaves behind: everything but the gated directories, in place. */
  function Kept(root: seq<Entry>, patterns: seq<string>, safe: set<string>): seq<Entry> {
    if root == [] then []
    else
      Kept(root[..|root| - 1], patterns, safe) +
      if MayGo(root[|root| - 1], patterns, safe) then [] else [root[|root| - 1]]
  }

  lemma {:induction false} LookupFinds(root: seq<Entry>, i: nat)
    requires DistinctNames(root) && i < |root|
    ensures Lookup(root, root[i].name) == Some(root[i].node)
  {
    if i < |root| - 1 {
      LookupFinds(root[..|root| - 1], i);
    }
  }

  /** The deletable artifacts, one more pattern at a time. */
  lemma {:induction false} DeletableStep(root: seq<Entry>, patterns: seq<string>, safe: set<string>)
    requires patterns != []
    ensures var pat, before := patterns[|patterns| - 1], Gated(Found(root, patterns[..|patterns| - 1]), safe, true);
            Gated(Found(root, patterns), safe, true) ==
            if IsArtifact(root, pat) && pat in safe
            then before + [Sized(root, pat)] else before
  {
    var init, pat := patterns[..|patterns| - 1], patterns[|patterns| - 1];
    if IsArtifact(root, pat) {
      GatedMore(Found(root, init), Sized(root, pat), safe, true);
    } else {
      assert Found(root, patterns) == Found(root, init);
    }
  }

  lemma {:induction false} GatedRels(root: seq<Entry>, patterns: seq<string>, safe: set<string>, name: string)
    ensures name in RelSet(Gated(Found(root, patterns), safe, true)) <==>
            name in patterns && IsArtifact(root, name) && name in safe
  {
    if patterns != [] {
      var init, pat := patterns[..|patterns| - 1], patterns[|patterns| - 1];
      assert patterns == init + [pat];
      GatedRels(root, init, safe, name);
      DeletableStep(root, patterns, safe);
      if IsArtifact(root, pat) && pat in safe {
        RelsMore(Gated(Found(root, init), safe, true), Sized(root, pat));
      }
    }
  }

  /** The clean removes exactly the top-level directories that are listed and pass the gate.
      Every other entry stays as it was, links among them. */
  lemma {:induction false} CleanKeeps(
    root: seq<Entry>, n: nat, patterns: seq<string>, safe: set<string>)
    requires DistinctNames(root) && n <= |root|
    ensures Without(root[..n], RelSet(Gated(Found(root, patterns), safe, true))) == Kept(root[..n], patterns, safe)
  {
    if n > 0 {
      assert root[..n][..n - 1] == root[..n - 1];
      CleanKeeps(root, n - 1, patterns, safe);
      LookupFinds(root, n - 1);
      GatedRels(root, patterns, safe, root[n - 1].name);
    }
  }

  /** Removing a name removes the size of what it named. */
  lemma {:induction false} RemovedOne(root: seq<Entry>, name: string)
    requires DistinctNames(root)
    ensures EntriesSize(root) == EntriesSize(Without(root, {name})) +
              (if Lookup(root, name).Some? then NodeSize(Lookup(root, name).value) else 0)
  {
    if root != [] {
      var init, last := root[..|root| - 1], root[|root| - 1];
      RemovedOne(init, name);
      if last.name == name {
        NameIsGone(init, name);
        assert Without(root, {name}) == init;
      } else {
        SizeMore(Without(init, {name}), last);
      }
    }
  }

  lemma {:induction false} SizeMore(root: seq<Entry>, e: Entry)
    ensures EntriesSize(root + [e]) == EntriesSize(root) + NodeSize(e.node)
  {
    assert (root + [e])[..|root|] == root;
  }

  lemma {:induction false} NameIsGone(root: seq<Entry>, name: string)
    requires forall e <- root :: e.name != name
    ensures Lookup(root, name) == None && Without(root, {name}) == root
  {
    if root != [] {
      assert root == root[..|root| - 1] + [root[|root| - 1]];
      NameIsGone(root[..|root| - 1], name);
    }
  }

  lemma {:induction false} LookupMore(root: seq<Entry>, e: Entry, name: string)
    ensures Lookup(root + [e], name) == if e.name == name then Some(e.node) else Lookup(root, name)
  {
    assert (root + [e])[..|root|] == root;
  }

  /** Names left after a removal, and what they name. */
  lemma {:induction false} WithoutKeeps(root: seq<Entry>, names: set<string>, name: string)
    requires DistinctNames(root)
    ensures DistinctNames(Without(root, names))
    ensures forall e <- Without(root, names) :: e in root
    ensures name !in names ==> Lookup(Without(root, names), name) == Lookup(root, name)
  {
    if root != [] {
      var init, last := root[..|root| - 1], root[|root| - 1];
      assert root == init + [last];
      WithoutKeeps(init, names, name);
      var kept := Without(init, names);
      if last.name !in names {
        LookupMore(kept, last, name);
        LookupMore(init, last, name);
        assert forall i :: 0 <= i < |kept| ==> kept[i] in init && kept[i].name != last.name;
        assert DistinctNames(kept + [last]);
      } else {
        LookupMore(init, last, name);
        assert Without(root, names) == kept;
      }
    }
  }

  lemma {:induction false} LookupFits(root: seq<Entry>, name: string)
    ensures Lookup(root, name).Some? ==> NodeSize(Lookup(root, name).value) <= EntriesSize(root)
  {
    if root != [] && root[|root| - 1].name != name {
      LookupFits(root[..|root| - 1], name);
    }
  }

  /** Size before is size after plus the bytes of the deleted artifacts. */
  lemma {:induction false} DeletableSize(root: seq<Entry>, patterns: seq<string>, safe: set<string>)
    requires DistinctNames(root) && Distinct(patterns) && EntriesSize(root) <= U64_MAX
    ensures var deletable := Gated(Found(root, patterns), safe, true);
            EntriesSize(root) == EntriesSize(Without(root, RelSet(deletable))) + TotalBytes(deletable)
  {
    if patterns == [] {
      WithoutNothing(root);
      assert RelSet(Gated(Found(root, patterns), safe, true)) == {};
    } else {
      var init, pat := patterns[..|patterns| - 1], patterns[|patterns| - 1];
      DeletableSize(root, init, safe);
      DeletableStep(root, patterns, safe);
      if IsArtifact(root, pat) && pat in safe {
        DeletesOneMore(root, Gated(Found(root, init), safe, true), pat, init, safe);
      }
    }
  }

  lemma {:induction false} DeletesOneMore(
    root: seq<Entry>, before: seq<Artifact>, pat: string, init: seq<string>, safe: set<string>)
    requires DistinctNames(root) && pat !in init && EntriesSize(root) <= U64_MAX && IsArtifact(root, pat)
    requires before == Gated(Found(root, init), safe, true)
    ensures var a := Sized(root, pat);
            EntriesSize(Without(root, RelSet(before))) + TotalBytes(before) ==
            EntriesSize(Without(root, RelSet(before + [a]))) + TotalBytes(before + [a])
  {
    var a := Sized(root, pat);
    var left := Without(root, RelSet(before));
    GatedRels(root, init, safe, pat);
    WithoutKeeps(root, RelSet(before), pat);
    RemovedOne(left, pat);
    WithoutTwice(root, RelSet(before), {pat});
    RelsMore(before, a);
    TotalMore(before, a);
    LookupFits(root, pat);
  }

  /** The names a clean may delete. */
  function Gone(root: seq<Entry>, patterns: seq<string>, safe: set<string>): set<string> {
    RelSet(Gated(Found(root, patterns), safe, true))
  }

  lemma {:induction false} CleanConserves(root: seq<Entry>, patterns: seq<string>, safe: set<string>)
    requires DistinctNames(root) && Distinct(patterns) && EntriesSize(root) <= U64_MAX
    ensures var deletable := Gated(Found(root, patterns), safe, true);
            && TotalBytes(deletable) <= U64_MAX
            && EntriesSize(root) == EntriesSize(Kept(root, patterns, safe)) + TotalBytes(deletable)
            && Without(root, Gone(root, patterns, safe)) == Kept(root, patterns, safe)
  {
    DeletableSize(root, patterns, safe);
    CleanKeeps(root, |root|, patterns, safe);
    assert root[..|root|] == root;
  }

  /** What deleting the gated artifacts leaves of the tree. */
  lemma {:induction false} CleanLeaves(
    root: seq<Entry>, patterns: seq<string>, safe: set<string>, answers: Answers, after: seq<Entry>, ok: bool)
    requires DistinctNames(root) && Distinct(patterns) && EntriesSize(root) <= U64_MAX
    requires (after, ok) == Deleted(root, Gated(Found(root, patterns), safe, true), answers)
    ensures ok <==> AllSucceed(Gone(root, patterns, safe), answers)
    ensures ok ==> after == Kept(root, patterns, safe)
    ensures Without(after, Gone(root, patterns, safe)) == Kept(root, patterns, safe)
  {
    var deletable := Gated(Found(root, patterns), safe, true);
    CleanConserves(root, patterns, safe);
    OthersUntouched(root, deletable, answers);
    DeletedIff(root, deletable, answers);
    if ok {
      AllDeleted(root, deletable, answers);
    }
  }

  /** Scan, gate and delete. What is freed is what the tree loses and what was announced
      beforehand, and nothing but gated top-level directories goes. When a removal fails,
      everything else is still as it was. */
  method CleanWorktree(w: Worktree, patterns: seq<string>, safe: set<string>, answers: Answers)
    returns (freed: Option<U64>, announced: U64)
    requires DistinctNames(w.root) && Distinct(patterns) && EntriesSize(w.root) <= U64_MAX
    modifies w
    ensures freed.Some? <==> AllSucceed(Gone(old(w.root), patterns, safe), answers)
    ensures freed.Some? ==> announced == freed.value && w.root == Kept(old(w.root), patterns, safe)
    ensures EntriesSize(old(w.root)) == EntriesSize(Kept(old(w.root), patterns, safe)) + announced
    ensures Without(w.root, Gone(old(w.root), patterns, safe)) == Kept(old(w.root), patterns, safe)
  {
    var deletable, total, skipped := ScanWorktreeSafe(w.root, patterns, safe);
    CleanConserves(w.root, patterns, safe);
    ghost var before := w.root;
    announced := total;
    assert announced == TotalBytes(deletable) == Saturate(TotalBytes(deletable));
    freed := w.DeleteReclaim(deletable, answers);
    CleanLeaves(before, patterns, safe, answers, w.root, freed.Some?);
  }

  lemma {:induction false} KeptIs(root: seq<Entry>, patterns: seq<string>, safe: set<string>, e: Entry)
    ensures e in Kept(root, patterns, safe) <==> e in root && !MayGo(e, patterns, safe)
  {
    if root != [] {
      assert root == root[..|root| - 1] + [root[|root| - 1]];
      KeptIs(root[..|root| - 1], patterns, safe, e);
    }
  }

  lemma {:induction false} WithoutIsPart(root: seq<Entry>, names: set<string>, e: Entry)
    requires e in Without(root, names)
    ensures e in root
  {
    assert root == root[..|root| - 1] + [root[|root| - 1]];
    if e != root[|root| - 1] {
      WithoutIsPart(root[..|root| - 1], names, e);
    }
  }

  /** A directory that is asked for, and passes the gate. */
  predicate IsReclaimed(profile: Option<string>, profiles: map<string, seq<string>>, safe: set<string>, e: Entry) {
    e.node.Dir? && e.name in safe && IsAskedFor(profile, profiles, e.name)
  }

  lemma {:induction false} ReclaimedAreGone(
    root: seq<Entry>, profile: Option<string>, profiles: map<string, seq<string>>, safe: set<string>)
    requires Resolved(profile, profiles).Ok?
    ensures forall e :: e in Kept(root, Resolved(profile, profiles).value, safe) <==>
                        e in root && !IsReclaimed(profile, profiles, safe, e)
  {
    forall e
      ensures e in Kept(root, Resolved(profile, profiles).value, safe) <==>
              e in root && !IsReclaimed(profile, profiles, safe, e)
    {
      KeptIs(root, Resolved(profile, profiles).value, safe, e);
      ResolvedIsAskedFor(profile, profiles, e.name);
    }
  }

  /** The profile that is selected by name, or else the default one, when there is it. */
  predicate IsProfile(profile: Option<string>, profiles: map<string, seq<string>>, name: string) {
    name in profiles && (profile == Some(name) || (profile.None? && name == "default"))
  }

  /** Whether some one of at most three attempts finds the directory gone, when each but the
      last is tried again only after it finds the directory refilled. */
  predicate GoesAway(answers: Answers, name: string) {
    name !in answers ||
    var (a, b, c) := (answers[name].first, answers[name].second, answers[name].third);
    || a == Removed || a == NotFound
    || (a.NotEmpty? && (b == Removed || b == NotFound))
    || (a.NotEmpty? && b.NotEmpty? && (c == Removed || c == NotFound))
  }

  datatype CleanError = BadProfile(error: DirError) | RemovalFailed

  lemma {:induction false} LookupIsEntry(root: seq<Entry>, name: string)
    requires Lookup(root, name).Some?
    ensures Entry(name, Lookup(root, name).value) in root
  {
    assert root == root[..|root| - 1] + [root[|root| - 1]];
    if root[|root| - 1].name != name {
      LookupIsEntry(root[..|root| - 1], name);
    }
  }

  /** The directories that are asked for and pass the gate, by their names. */
  lemma {:induction false} GoneIs(
    root: seq<Entry>, profile: Option<string>, profiles: map<string, seq<string>>, safe: set<string>,
    answers: Answers)
    requires DistinctNames(root) && Resolved(profile, profiles).Ok?
    ensures AllSucceed(Gone(root, Resolved(profile, profiles).value, safe), answers) <==>
            forall e <- root :: IsReclaimed(profile, profiles, safe, e) ==> GoesAway(answers, e.name)
  {
    var dirs := Resolved(profile, profiles).value;
    forall e <- root | IsReclaimed(profile, profiles, safe, e) ensures e.name in Gone(root, dirs, safe) {
      var i :| 0 <= i < |root| && root[i] == e;
      LookupFinds(root, i);
      GatedRels(root, dirs, safe, e.name);
      ResolvedIsAskedFor(profile, profiles, e.name);
    }
    forall name <- Gone(root, dirs, safe)
      ensures exists e <- root :: e.name == name && IsReclaimed(profile, profiles, safe, e)
    {
      GatedRels(root, dirs, safe, name);
      LookupIsEntry(root, name);
      ResolvedIsAskedFor(profile, profiles, name);
      assert IsReclaimed(profile, profiles, safe, Entry(name, Lookup(root, name).value));
    }
  }

  /** The same from the configuration: what is resolved never names a directory twice, and a
      bad configuration deletes nothing. On success exactly the directories that are asked
      for and pass the gate are gone; on failure no others are. */
  method Clean(
    w: Worktree, profile: Option<string>, profiles: map<string, seq<string>>, safe: set<string>, answers: Answers)
    returns (r: Result<U64, CleanError>)
    requires DistinctNames(w.root) && EntriesSize(w.root) <= U64_MAX
    modifies w
    ensures profile.Some? && profile.value !in profiles ==> r == Err(BadProfile(NoProfile))
    ensures forall name, i | IsProfile(profile, profiles, name) && FirstBad(profiles[name], i) ::
              r == Err(BadProfile(NameOf(profiles[name][i]).error))
    ensures !AllPlain(profile, profiles) ==> r.Err? && r.error.BadProfile? && w.root == old(w.root)
    ensures AllPlain(profile, profiles) ==>
              && (r.Err? ==> r == Err(RemovalFailed))
              && (r.Ok? <==> forall e <- old(w.root) ::
                               IsReclaimed(profile, profiles, safe, e) ==> GoesAway(answers, e.name))
    ensures r.Ok? ==> AllPlain(profile, profiles) && EntriesSize(old(w.root)) == EntriesSize(w.root) + r.value
    ensures r.Ok? ==> forall e :: e in w.root <==> e in old(w.root) && !IsReclaimed(profile, profiles, safe, e)
    ensures forall e <- old(w.root) :: !IsReclaimed(profile, profiles, safe, e) ==> e in w.root
    ensures r.Ok? ==>
              && Resolved(profile, profiles).Ok?
              && w.root == Kept(old(w.root), Resolved(profile, profiles).value, safe)
  {
    ResolvedIff(profile, profiles);
    ResolvedIs(profile, profiles);
    var dirs := ResolveCleanDirs(profile, profiles);
    if dirs.Err? {
      return Err(BadProfile(dirs.error));
    }
    ResolvedIsPlainAndDistinct(profile, profiles);
    ReclaimedAreGone(w.root, profile, profiles, safe);
    ghost var before := w.root;
    var freed, _ := CleanWorktree(w, dirs.value, safe, answers);
    r := if freed.Some? then Ok(freed.value) else Err(RemovalFailed);
    GoneIs(before, profile, profiles, safe, answers);
    forall e <- before | !IsReclaimed(profile, profiles, safe, e) ensures e in w.root {
      WithoutIsPart(w.root, Gone(before, dirs.value, safe), e);
    }
  }

  /** A name listed twice would be counted twice: the bytes freed would not be the bytes
      lost. */
  lemma {:induction false} RepeatedNameCountsTwice()
    ensures var root := [Entry("dist", Dir([Entry("a", File(1))]))];
            var deletable := Gated(Found(root, ["dist", "dist"]), {"dist"}, true);
            && EntriesSize(root) == 1 && TotalBytes(deletable) == 2
            && Without(root, RelSet(deletable)) == []
  {
    var inner := [Entry("a", File(1))];
    var root := [Entry("dist", Dir(inner))];
    var safe := {"dist"};
    var a := Artifact("dist", 1);
    assert inner[..0] == [] && root[..0] == [];
    assert EntriesSize(inner) == 1 && EntriesSize(root) == 1;
    assert ["dist", "dist"][..1] == ["dist"] && ["dist"][..0] == [];
    assert Found(root, ["dist"]) == [a];
    assert Found(root, ["dist", "dist"]) == [a, a];
    GatedMore([], a, safe, true);
    GatedMore([a], a, safe, true);
    assert [] + [a] == [a] && [a] + [a] == [a, a];
    assert Gated([a, a], safe, true) == [a, a];
    TotalMore([], a);
    TotalMore([a], a);
    assert "dist" in RelSet([a, a]) by { assert a in [a, a]; }
  }
}
