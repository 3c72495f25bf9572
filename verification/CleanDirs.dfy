/** Which directory names `gwm clean` may look for: every accepted profile entry is one
    plain name, and no name is listed twice. */
module CleanDirs {
  import opened Wrappers
  import opened Text

  datatype DirError = NoProfile | Empty | Escapes | Absolute | IsRoot | Nested | PathspecMagic

  datatype Component = RootDir | ParentDir | Normal(name: string)

  // ----- Path components -----

  /** The text between slashes. */
  function SplitSlashes(path: string): (parts: seq<string>)
    ensures |parts| > 0
  {
    var i := Find(path, '/');
    if i == |path| then [path] else [path[..i]] + SplitSlashes(path[i + 1..])
  }

  function PartComponents(parts: seq<string>): seq<Component> {
    if parts == [] then []
    else
      (if parts[0] == "" || parts[0] == "." then []
       else if parts[0] == ".." then [ParentDir]
       else [Normal(parts[0])]) + PartComponents(parts[1..])
  }

  /** The components of a path, current-directory ones left out. */
  function Components(path: string): seq<Component> {
    (if path != "" && path[0] == '/' then [RootDir] else []) + PartComponents(SplitSlashes(path))
  }

  predicate IsMagic(name: string) {
    (name != "" && name[0] == ':') || '*' in name || '?' in name || '[' in name || ']' in name
  }

  // ----- One entry, and a list of entries -----

  function NameOf(dir: string): Result<string, DirError> {
    if dir == "" then Err(Empty)
    else
      var comps := Components(dir);
      if comps == [] then Err(IsRoot)
      else if comps[0].ParentDir? then Err(Escapes)
      else if comps[0].RootDir? then Err(Absolute)
      else if |comps| > 1 then Err(Nested)
      else if IsMagic(comps[0].name) then Err(PathspecMagic)
      else Ok(comps[0].name)
  }

  /** The names of all entries, or the error of the first bad one. */
  function Normalized(dirs: seq<string>): Result<seq<string>, DirError> {
    if dirs == [] then Ok([])
    else match Normalized(dirs[..|dirs| - 1])
      case Err(e) => Err(e)
      case Ok(names) =>
        match NameOf(dirs[|dirs| - 1])
        case Err(e) => Err(e)
        case Ok(name) => Ok(names + [name])
  }

  lemma {:induction false} FirstErrorWins(dirs: seq<string>, i: nat)
    requires i <= |dirs| && Normalized(dirs[..i]).Err?
    ensures Normalized(dirs) == Normalized(dirs[..i])
    decreases |dirs|
  {
    if i == |dirs| {
      assert dirs[..i] == dirs;
    } else {
      assert dirs[..|dirs| - 1][..i] == dirs[..i];
      FirstErrorWins(dirs[..|dirs| - 1], i);
    }
  }

  method NormalizedProfileDirs(dirs: seq<string>) returns (r: Result<seq<string>, DirError>)
    ensures r == Normalized(dirs)
  {
    var names := [];
    for i := 0 to |dirs|
      invariant Normalized(dirs[..i]) == Ok(names)
    {
      assert dirs[..i + 1][..i] == dirs[..i];
      match NameOf(dirs[i])
      case Err(e) =>
        FirstErrorWins(dirs, i + 1);
        return Err(e);
      case Ok(name) => names := names + [name];
    }
    assert dirs[..|dirs|] == dirs;
    r := Ok(names);
  }

  function Dedup(dirs: seq<string>): seq<string> {
    if dirs == [] then []
    else
      var kept := Dedup(dirs[..|dirs| - 1]);
      if dirs[|dirs| - 1] in kept then kept else kept + [dirs[|dirs| - 1]]
  }

  method DedupDirs(dirs: seq<string>) returns (kept: seq<string>)
    ensures kept == Dedup(dirs)
  {
    kept := [];
    for i := 0 to |dirs|
      invariant kept == Dedup(dirs[..i])
    {
      assert dirs[..i + 1][..i] == dirs[..i];
      if dirs[i] !in kept {
        kept := kept + [dirs[i]];
      }
    }
    assert dirs[..|dirs|] == dirs;
  }

  const DEFAULT_PATTERNS := ["target", "node_modules", "dist", "build"]

  function Resolved(profile: Option<string>, profiles: map<string, seq<string>>): Result<seq<string>, DirError> {
    var name := if profile.Some? then profile.value else "default";
    if name in profiles then
      match Normalized(profiles[name])
      case Err(e) => Err(e)
      case Ok(names) => Ok(Dedup(names))
    else if profile.Some? then Err(NoProfile)
    else Ok(DEFAULT_PATTERNS)
  }

  method ResolveCleanDirs(profile: Option<string>, profiles: map<string, seq<string>>)
    returns (r: Result<seq<string>, DirError>)
    ensures r == Resolved(profile, profiles)
    ensures profile.Some? && profile.value !in profiles ==> r == Err(NoProfile)
    ensures profile.Some? && profile.value in profiles ==> ComesOf(profiles[profile.value], r)
    ensures profile.None? && "default" in profiles ==> ComesOf(profiles["default"], r)
    ensures profile.None? && "default" !in profiles ==> r == Ok(["target", "node_modules", "dist", "build"])
  {
    ResolvedIs(profile, profiles);
    var name := if profile.Some? then profile.value else "default";
    if name !in profiles {
      return if profile.Some? then Err(NoProfile) else Ok(DEFAULT_PATTERNS);
    }
    var names := NormalizedProfileDirs(profiles[name]);
    if names.Err? {
      return Err(names.error);
    }
    var kept := DedupDirs(names.value);
    r := Ok(kept);
  }

  // ----- What is accepted -----

  /** One ordinary name: it can only mean an entry of the worktree root itself. */
  predicate IsPlainName(name: string) {
    name != "" && name != "." && name != ".." && '/' !in name && !IsMagic(name)
  }

  predicate Distinct(s: seq<string>) {
    forall i, j :: 0 <= i < j < |s| ==> s[i] != s[j]
  }

  lemma {:induction false} PartsHaveNoSlash(path: string)
    ensures forall part <- SplitSlashes(path) :: '/' !in part
  {
    var i := Find(path, '/');
    FindIsFirst(path, '/');
    if i < |path| {
      PartsHaveNoSlash(path[i + 1..]);
    }
  }

  lemma {:induction false} ComponentsArePlain(parts: seq<string>, name: string)
    requires Normal(name) in PartComponents(parts)
    ensures name in parts && name != "" && name != "." && name != ".."
  {
    assert parts == [parts[0]] + parts[1..];
    if name != parts[0] || parts[0] == "" || parts[0] == "." || parts[0] == ".." {
      ComponentsArePlain(parts[1..], name);
    }
  }

  lemma {:induction false} NameIsPlain(dir: string)
    ensures NameOf(dir).Ok? ==> IsPlainName(NameOf(dir).value)
  {
    if NameOf(dir).Ok? {
      var name := NameOf(dir).value;
      assert Components(dir)[0] == Normal(name);
      assert Normal(name) in PartComponents(SplitSlashes(dir));
      PartsHaveNoSlash(dir);
      ComponentsArePlain(SplitSlashes(dir), name);
    }
  }

  /** A plain name names itself, so normalising twice is normalising once. */
  lemma {:induction false} PlainNamesItself(name: string)
    requires IsPlainName(name)
    ensures NameOf(name) == Ok(name)
  {
    assert forall i :: 0 <= i < |name| ==> name[i] in name;
    assert SplitSlashes(name) == [name] && [name][1..] == [];
    assert PartComponents([name]) == [Normal(name)];
  }

  lemma {:induction false} NormalizedArePlain(dirs: seq<string>)
    requires Normalized(dirs).Ok?
    ensures forall name <- Normalized(dirs).value :: IsPlainName(name)
    ensures Normalized(Normalized(dirs).value) == Normalized(dirs)
  {
    if dirs != [] {
      var init, last := dirs[..|dirs| - 1], dirs[|dirs| - 1];
      NormalizedArePlain(init);
      NameIsPlain(last);
      PlainNamesItself(NameOf(last).value);
      var names := Normalized(dirs).value;
      assert names[..|names| - 1] == Normalized(init).value;
    }
  }

  lemma {:induction false} DedupIsDistinct(dirs: seq<string>)
    ensures Distinct(Dedup(dirs))
    ensures forall d :: d in Dedup(dirs) <==> d in dirs
  {
    if dirs != [] {
      assert dirs == dirs[..|dirs| - 1] + [dirs[|dirs| - 1]];
      DedupIsDistinct(dirs[..|dirs| - 1]);
    }
  }

  /** Whatever set is resolved, it holds plain names only, each once. */
  lemma {:induction false} ResolvedIsPlainAndDistinct(profile: Option<string>, profiles: map<string, seq<string>>)
    requires Resolved(profile, profiles).Ok?
    ensures var dirs := Resolved(profile, profiles).value;
            Distinct(dirs) && forall d <- dirs :: IsPlainName(d)
  {
    var name := if profile.Some? then profile.value else "default";
    if name in profiles {
      NormalizedArePlain(profiles[name]);
      DedupIsDistinct(Normalized(profiles[name]).value);
    }
  }

  // ----- What is resolved, entry by entry -----

  predicate Lists(entries: seq<string>, name: string) {
    exists i :: 0 <= i < |entries| && NameOf(entries[i]) == Ok(name)
  }

  /** The position `i` holds the first entry that is no single plain name. */
  predicate FirstBad(entries: seq<string>, i: int) {
    0 <= i < |entries| && NameOf(entries[i]).Err? && forall j :: 0 <= j < i ==> NameOf(entries[j]).Ok?
  }

  /** The names of the entries, each once and where it is listed first. */
  ghost predicate AreNames(entries: seq<string>, names: seq<string>) {
    && Distinct(names)
    && (forall name :: name in names <==> Lists(entries, name))
    && forall k :: 0 <= k < |names| ==> ListedBehind(entries, names[..k], names[k])
  }

  /** Some entry stands for `name`, and all entries in front of it for names in `before`. */
  predicate ListedBehind(entries: seq<string>, before: seq<string>, name: string) {
    exists i :: 0 <= i < |entries| && NameOf(entries[i]) == Ok(name) && OnlyListed(entries[..i], before)
  }

  predicate OnlyListed(entries: seq<string>, names: seq<string>) {
    forall j :: 0 <= j < |entries| ==> NameOf(entries[j]).Ok? && NameOf(entries[j]).value in names
  }

  /** What a list of entries resolves to. */
  ghost predicate ComesOf(entries: seq<string>, r: Result<seq<string>, DirError>) {
    && (r.Ok? ==> ArePlain(entries) && AreNames(entries, r.value))
    && (r.Err? ==> exists i :: FirstBad(entries, i) && NameOf(entries[i]) == Err(r.error))
  }

  lemma {:induction false} NormalizedIs(dirs: seq<string>)
    ensures Normalized(dirs).Ok? ==>
              && |Normalized(dirs).value| == |dirs|
              && forall i :: 0 <= i < |dirs| ==> NameOf(dirs[i]) == Ok(Normalized(dirs).value[i])
    ensures Normalized(dirs).Err? ==> exists i :: FirstBad(dirs, i) && NameOf(dirs[i]) == Err(Normalized(dirs).error)
  {
    if dirs != [] {
      var init := dirs[..|dirs| - 1];
      NormalizedIs(init);
      if Normalized(init).Err? {
        var i :| FirstBad(init, i) && NameOf(init[i]) == Err(Normalized(init).error);
        assert FirstBad(dirs, i) && NameOf(dirs[i]) == Err(Normalized(dirs).error);
      } else if Normalized(dirs).Err? {
        assert forall j :: 0 <= j < |init| ==> init[j] == dirs[j];
        assert FirstBad(dirs, |dirs| - 1);
      }
    }
  }

  /** Every name that is kept is kept where it occurs first. */
  lemma {:induction false} DedupKeepsFirst(names: seq<string>, k: nat) returns (i: nat)
    requires k < |Dedup(names)|
    ensures i < |names| && names[i] == Dedup(names)[k]
    ensures forall j :: 0 <= j < i ==> names[j] in Dedup(names)[..k]
  {
    var kept := Dedup(names[..|names| - 1]);
    if k < |kept| {
      i := DedupKeepsFirst(names[..|names| - 1], k);
      assert Dedup(names)[..k] == kept[..k];
    } else {
      i := |names| - 1;
      DedupIsDistinct(names[..i]);
      assert Dedup(names)[..k] == kept;
    }
  }

  lemma {:induction false} NamesAre(entries: seq<string>)
    requires Normalized(entries).Ok?
    ensures AreNames(entries, Dedup(Normalized(entries).value))
  {
    var all := Normalized(entries).value;
    var names := Dedup(all);
    NormalizedIs(entries);
    DedupIsDistinct(all);
    forall name ensures name in names <==> Lists(entries, name) {
      if name in all {
        var i :| 0 <= i < |all| && all[i] == name;
        assert NameOf(entries[i]) == Ok(name);
      }
    }
    forall k | 0 <= k < |names| ensures ListedBehind(entries, names[..k], names[k]) {
      var i := DedupKeepsFirst(all, k);
      assert NameOf(entries[i]) == Ok(names[k]);
      assert OnlyListed(entries[..i], names[..k]);
    }
  }

  lemma {:induction false} ResolvedIs(profile: Option<string>, profiles: map<string, seq<string>>)
    ensures var r := Resolved(profile, profiles);
            && (profile.Some? && profile.value !in profiles ==> r == Err(NoProfile))
            && (profile.Some? && profile.value in profiles ==> ComesOf(profiles[profile.value], r))
            && (profile.None? && "default" in profiles ==> ComesOf(profiles["default"], r))
            && (profile.None? && "default" !in profiles ==> r == Ok(["target", "node_modules", "dist", "build"]))
  {
    var name := if profile.Some? then profile.value else "default";
    if name in profiles {
      NormalizedIs(profiles[name]);
      if Normalized(profiles[name]).Ok? {
        NamesAre(profiles[name]);
      }
    }
  }

  /** The profile to use, if any, is there and lists single plain names only. */
  predicate AllPlain(profile: Option<string>, profiles: map<string, seq<string>>) {
    if profile.Some? then profile.value in profiles && ArePlain(profiles[profile.value])
    else "default" in profiles ==> ArePlain(profiles["default"])
  }

  predicate ArePlain(entries: seq<string>) {
    forall i :: 0 <= i < |entries| ==> NameOf(entries[i]).Ok?
  }

  lemma {:induction false} ResolvedIff(profile: Option<string>, profiles: map<string, seq<string>>)
    ensures Resolved(profile, profiles).Ok? <==> AllPlain(profile, profiles)
  {
    ResolvedIs(profile, profiles);
  }

  /** A directory a clean is asked for: the selected profile lists it, in whatever form; or,
      when none is selected, the default profile; or, when there is none, it is built in. */
  predicate IsAskedFor(profile: Option<string>, profiles: map<string, seq<string>>, name: string) {
    if profile.Some? then profile.value in profiles && Lists(profiles[profile.value], name)
    else if "default" in profiles then Lists(profiles["default"], name)
    else name == "target" || name == "node_modules" || name == "dist" || name == "build"
  }

  lemma {:induction false} ResolvedIsAskedFor(profile: Option<string>, profiles: map<string, seq<string>>, name: string)
    requires Resolved(profile, profiles).Ok?
    ensures name in Resolved(profile, profiles).value <==> IsAskedFor(profile, profiles, name)
  {
    ResolvedIs(profile, profiles);
  }

  // ----- What an entry stands for -----

  function JoinSlashes(parts: seq<string>): string {
    if parts == [] then "" else if |parts| == 1 then parts[0] else parts[0] + ['/'] + JoinSlashes(parts[1..])
  }

  /** Splitting gives back the parts that were joined. */
  lemma {:induction false} SplitJoins(parts: seq<string>)
    requires |parts| > 0 && forall part <- parts :: '/' !in part
    ensures SplitSlashes(JoinSlashes(parts)) == parts
  {
    var first := parts[0];
    if |parts| == 1 {
      FindIsFirst(first, '/');
      assert parts == [first];
    } else {
      var rest := JoinSlashes(parts[1..]);
      SplitJoins(parts[1..]);
      FindFirst(first, '/', rest);
      assert JoinSlashes(parts)[..|first|] == first && JoinSlashes(parts)[|first| + 1..] == rest;
    }
  }

  predicate IsSkipped(part: string) {
    part == "" || part == "."
  }

  lemma {:induction false} SkippedParts(parts: seq<string>, i: nat)
    requires i <= |parts| && forall j :: 0 <= j < i ==> IsSkipped(parts[j])
    ensures PartComponents(parts) == PartComponents(parts[i..])
  {
    if i > 0 {
      SkippedParts(parts[1..], i - 1);
      assert parts[i..] == parts[1..][i - 1..];
    }
  }

  lemma {:induction false} NoMoreParts(parts: seq<string>)
    ensures PartComponents(parts) == [] <==> forall j :: 0 <= j < |parts| ==> IsSkipped(parts[j])
  {
    if parts != [] {
      NoMoreParts(parts[1..]);
      assert parts == [parts[0]] + parts[1..];
    }
  }

  /** What an entry that is given by its parts stands for: with the empty and the `.` parts
      left out, one part that is no parent and without magic. */
  lemma {:induction false} NameOfParts(parts: seq<string>, i: nat)
    requires |parts| > 0 && forall part <- parts :: '/' !in part
    requires i <= |parts| && forall j :: 0 <= j < i ==> parts[j] == "" || parts[j] == "."
    requires i < |parts| ==> parts[i] != "" && parts[i] != "."
    ensures var (dir, more) := (JoinSlashes(parts), exists j :: i < j < |parts| && parts[j] != "" && parts[j] != ".");
            NameOf(dir) ==
            if dir == "" then Err(Empty)
            else if dir[0] == '/' then Err(Absolute)
            else if i == |parts| then Err(IsRoot)
            else if parts[i] == ".." then Err(Escapes)
            else if more then Err(Nested)
            else if parts[i][0] == ':' || exists c <- parts[i] :: c == '*' || c == '?' || c == '[' || c == ']'
              then Err(PathspecMagic)
            else Ok(parts[i])
  {
    SplitJoins(parts);
    SkippedParts(parts, i);
    if i < |parts| {
      NoMoreParts(parts[i + 1..]);
      assert parts[i..][1..] == parts[i + 1..];
      assert forall j :: i < j < |parts| ==> parts[j] == parts[i + 1..][j - i - 1];
    }
  }
}
