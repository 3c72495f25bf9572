/** The date-pruned walk over a `YYYY/MM/DD` session store. Whole directories are skipped
    by comparing their names with a cutoff date, level by level; the results here say
    exactly which day directories survive, and that no fresh one is lost. */
module CodexWalk {
  import opened Wrappers
  import Decimal
  import opened Calendar

  // ----- The store -----

  /** A file name: Unicode text, or bytes that are no text at all. */
  datatype Name = Text(text: string) | Raw(bytes: seq<nat>)

  datatype Node = File(name: Name) | Folder(name: Name, entries: seq<Node>)

  /** A directory met by the walk; one that cannot be read has no entries. */
  datatype Dir = Dir(path: seq<Name>, entries: seq<Node>)

  function ChildDirs(path: seq<Name>, entries: seq<Node>): seq<Dir> {
    if entries == [] then []
    else
      var rest := ChildDirs(path, entries[..|entries| - 1]);
      match entries[|entries| - 1]
      case Folder(name, children) => rest + [Dir(path + [name], children)]
      case File(_) => rest
  }

  function Subdirs(dirs: seq<Dir>): seq<Dir> {
    if dirs == [] then []
    else
      var last := dirs[|dirs| - 1];
      Subdirs(dirs[..|dirs| - 1]) + ChildDirs(last.path, last.entries)
  }

  method SubdirsFlat(dirs: seq<Dir>) returns (out: seq<Dir>)
    ensures out == Subdirs(dirs)
  {
    out := [];
    for i := 0 to |dirs|
      invariant out == Subdirs(dirs[..i])
    {
      var entries := dirs[i].entries;
      for j := 0 to |entries|
        invariant out == Subdirs(dirs[..i]) + ChildDirs(dirs[i].path, entries[..j])
      {
        assert entries[..j + 1][..j] == entries[..j];
        if entries[j].Folder? {
          out := out + [Dir(dirs[i].path + [entries[j].name], entries[j].entries)];
        }
      }
      assert entries[..|entries|] == entries;
      assert dirs[..i + 1][..i] == dirs[..i];
    }
    assert dirs[..|dirs|] == dirs;
  }

  lemma {:induction false} ChildDirsPaths(path: seq<Name>, entries: seq<Node>)
    ensures forall d <- ChildDirs(path, entries) :: |d.path| == |path| + 1 && path < d.path
  {
    if entries != [] {
      ChildDirsPaths(path, entries[..|entries| - 1]);
    }
  }

  lemma {:induction false} SubdirsAppend(a: seq<Dir>, b: seq<Dir>)
    ensures Subdirs(a + b) == Subdirs(a) + Subdirs(b)
  {
    if b == [] {
      assert a + b == a;
    } else {
      assert (a + b)[..|a + b| - 1] == a + b[..|b| - 1];
      SubdirsAppend(a, b[..|b| - 1]);
    }
  }

  /** Directories found one level below `dirs` have paths one name longer. */
  lemma {:induction false} SubdirsPaths(dirs: seq<Dir>, path: seq<Name>, n: nat)
    requires forall d <- dirs :: path <= d.path && |d.path| == n
    ensures forall d <- Subdirs(dirs) :: path <= d.path && |d.path| == n + 1
  {
    if dirs != [] {
      var last := dirs[|dirs| - 1];
      SubdirsPaths(dirs[..|dirs| - 1], path, n);
      ChildDirsPaths(last.path, last.entries);
      assert path <= last.path && |last.path| == n;
      forall d | d in ChildDirs(last.path, last.entries)
        ensures path <= d.path && |d.path| == n + 1
      {
        assert path <= last.path < d.path;
      }
    }
  }

  // ----- Time -----

  const NANOS_PER_DAY := 86_400 * 1_000_000_000
  const SCAN_WINDOW := 30 * NANOS_PER_DAY
  const RESUME_SLACK := 30 * NANOS_PER_DAY

  /** Nanoseconds since the epoch, within the range a `Duration` past the epoch has. */
  type Time = t: int | t < 0x1_0000_0000_0000_0000 * 1_000_000_000

  /** Whole days since the epoch; an instant before it counts as the epoch. */
  function DayOf(t: Time): (days: int)
    ensures 0 <= days < 0x1_0000_0000_0000_0000
    ensures t <= 0 ==> days == 0
  {
    if t < 0 then 0 else t / 1_000_000_000 / 86_400
  }

  function CivilDate(t: Time): Option<Date> {
    if t < 0 then None else Some(CivilFromDays(DayOf(t)))
  }

  lemma {:induction false} YearIsAtMostDays(days: int)
    requires days >= 0
    ensures 1970 <= CivilFromDays(days).y <= 1970 + days / 365
  {
    CivilFromDaysIsExact(days);
    var date := CivilFromDays(days);
    YearEnds(date);
    if date.y < 1970 {
      YearsGrow(date.y + 1, 1970);
    } else {
      YearsGrow(1970, date.y);
    }
  }

  predicate IsPrintable(date: Date) {
    IsDate(date) && 0 <= date.y <= I64_MAX
  }

  lemma {:induction false} CivilDateIsPrintable(t: Time)
    ensures CivilDate(t).Some? ==> IsPrintable(CivilDate(t).value)
  {
    if t >= 0 {
      CivilFromDaysIsExact(DayOf(t));
      YearIsAtMostDays(DayOf(t));
    }
  }

  /** The date a rollout of time `t` is filed under. */
  function FiledDate(t: Time): (date: Date)
    ensures IsPrintable(date)
  {
    CivilDateIsPrintable(t);
    if CivilDate(t).Some? then CivilDate(t).value else Date(1970, 1, 1)
  }

  function DateNames(date: Date): (names: seq<Name>)
    requires IsPrintable(date)
    ensures |names| == 3
  {
    [Text(Decimal.PrintPadded(date.y, 4)), Text(Decimal.PrintPadded(date.m, 2)), Text(Decimal.PrintPadded(date.d, 2))]
  }

  /** The three directory names a rollout of time `t` is filed under. */
  function DayDir(t: Time): (names: seq<Name>)
    ensures |names| == 3
  {
    DateNames(FiledDate(t))
  }

  // ----- The cutoff and the names -----

  function DirNum(name: Name): Option<int> {
    match name
    case Text(text) => Decimal.ParseSigned(text, I64_MIN, I64_MAX)
    case Raw(_) => None
  }

  /** The date before which directories are skipped. `earliest` is the first instant the
      platform can represent; going past it falls back to the epoch. */
  function Cutoff(now: Time, earliest: int): Option<Date> {
    var start := now - (SCAN_WINDOW + RESUME_SLACK);
    CivilDate(if start >= earliest then start else 0)
  }

  predicate YearPruned(cut: Date, y: Name) {
    DirNum(y).Some? && DirNum(y).value < cut.y
  }

  predicate MonthPruned(cut: Date, y: Name, m: Name) {
    && DirNum(y).Some? && DirNum(m).Some?
    && (DirNum(y).value < cut.y || (DirNum(y).value == cut.y && DirNum(m).value < cut.m))
  }

  predicate DayPruned(cut: Date, y: Name, m: Name, d: Name) {
    && DirNum(y).Some? && DirNum(m).Some? && DirNum(d).Some?
    && Before(Date(DirNum(y).value, DirNum(m).value, DirNum(d).value), cut)
  }

  predicate Kept(cut: Option<Date>, y: Name, m: Name, d: Name) {
    cut.None? || (!YearPruned(cut.value, y) && !MonthPruned(cut.value, y, m) && !DayPruned(cut.value, y, m, d))
  }

  predicate DayKept(cut: Option<Date>, path: seq<Name>) {
    var n := |path|;
    n < 3 || Kept(cut, path[n - 3], path[n - 2], path[n - 1])
  }

  function Filter(keep: seq<Name> -> bool, dirs: seq<Dir>): seq<Dir> {
    if dirs == [] then []
    else Filter(keep, dirs[..|dirs| - 1]) + if keep(dirs[|dirs| - 1].path) then [dirs[|dirs| - 1]] else []
  }

  function KeptDirs(cut: Option<Date>, dirs: seq<Dir>): seq<Dir> {
    Filter(path => DayKept(cut, path), dirs)
  }

  lemma {:induction false} FilterAppend(keep: seq<Name> -> bool, a: seq<Dir>, b: seq<Dir>)
    ensures Filter(keep, a + b) == Filter(keep, a) + Filter(keep, b)
  {
    if b == [] {
      assert a + b == a;
    } else {
      assert (a + b)[..|a + b| - 1] == a + b[..|b| - 1];
      FilterAppend(keep, a, b[..|b| - 1]);
    }
  }

  lemma {:induction false} KeptDirsAppend(cut: Option<Date>, a: seq<Dir>, b: seq<Dir>)
    ensures KeptDirs(cut, a + b) == KeptDirs(cut, a) + KeptDirs(cut, b)
  {
    FilterAppend(path => DayKept(cut, path), a, b);
  }

  lemma {:induction false} FilterContains(keep: seq<Name> -> bool, dirs: seq<Dir>, dir: Dir)
    ensures dir in Filter(keep, dirs) <==> dir in dirs && keep(dir.path)
  {
    if dirs != [] {
      assert dirs == dirs[..|dirs| - 1] + [dirs[|dirs| - 1]];
      FilterContains(keep, dirs[..|dirs| - 1], dir);
    }
  }

  lemma {:induction false} KeptDirsContains(cut: Option<Date>, dirs: seq<Dir>, dir: Dir)
    ensures dir in KeptDirs(cut, dirs) <==> dir in dirs && DayKept(cut, dir.path)
  {
    FilterContains(path => DayKept(cut, path), dirs, dir);
  }

  lemma {:induction false} FilterNone(keep: seq<Name> -> bool, dirs: seq<Dir>)
    requires forall dir <- dirs :: !keep(dir.path)
    ensures Filter(keep, dirs) == []
  {
    if dirs != [] {
      assert dirs[|dirs| - 1] in dirs;
      FilterNone(keep, dirs[..|dirs| - 1]);
    }
  }

  lemma {:induction false} NothingKept(cut: Option<Date>, dirs: seq<Dir>)
    requires forall dir <- dirs :: !DayKept(cut, dir.path)
    ensures KeptDirs(cut, dirs) == []
  {
    FilterNone(path => DayKept(cut, path), dirs);
  }

  lemma {:induction false} FilterAll(keep: seq<Name> -> bool, dirs: seq<Dir>)
    requires forall dir <- dirs :: keep(dir.path)
    ensures Filter(keep, dirs) == dirs
  {
    if dirs != [] {
      assert dirs[|dirs| - 1] in dirs;
      FilterAll(keep, dirs[..|dirs| - 1]);
    }
  }

  lemma {:induction false} EverythingKept(dirs: seq<Dir>)
    ensures KeptDirs(None, dirs) == dirs
  {
    FilterAll(path => DayKept(None, path), dirs);
  }

  // ----- The walk -----

  function ThreeDown(base: Dir): seq<Dir> {
    Subdirs(Subdirs(Subdirs([base])))
  }

  lemma {:induction false} YearPruneIsSafe(cut: Date, ydir: Dir)
    requires |ydir.path| > 0 && YearPruned(cut, ydir.path[|ydir.path| - 1])
    ensures KeptDirs(Some(cut), Subdirs(Subdirs([ydir]))) == []
  {
    var n := |ydir.path|;
    SubdirsPaths([ydir], ydir.path, n);
    SubdirsPaths(Subdirs([ydir]), ydir.path, n + 1);
    forall dir <- Subdirs(Subdirs([ydir]))
      ensures !DayKept(Some(cut), dir.path)
    {
      assert dir.path[n - 1] == ydir.path[n - 1];
    }
    NothingKept(Some(cut), Subdirs(Subdirs([ydir])));
  }

  lemma {:induction false} MonthPruneIsSafe(cut: Date, mdir: Dir)
    requires |mdir.path| > 1 && MonthPruned(cut, mdir.path[|mdir.path| - 2], mdir.path[|mdir.path| - 1])
    ensures KeptDirs(Some(cut), Subdirs([mdir])) == []
  {
    var n := |mdir.path|;
    SubdirsPaths([mdir], mdir.path, n);
    forall dir <- Subdirs([mdir])
      ensures !DayKept(Some(cut), dir.path)
    {
      assert dir.path[n - 1] == mdir.path[n - 1] && dir.path[n - 2] == mdir.path[n - 2];
    }
    NothingKept(Some(cut), Subdirs([mdir]));
  }

  /** One more directory at the end of a level adds what lies below it at the end. */
  lemma {:induction false} OneMore(dirs: seq<Dir>, i: nat)
    requires i < |dirs|
    ensures Subdirs(dirs[..i + 1]) == Subdirs(dirs[..i]) + Subdirs([dirs[i]])
    ensures Subdirs(Subdirs(dirs[..i + 1])) == Subdirs(Subdirs(dirs[..i])) + Subdirs(Subdirs([dirs[i]]))
  {
    assert dirs[..i + 1] == dirs[..i] + [dirs[i]];
    SubdirsAppend(dirs[..i], [dirs[i]]);
    SubdirsAppend(Subdirs(dirs[..i]), Subdirs([dirs[i]]));
  }

  /** The pruned walk finds, in the same order, exactly the kept directories of the full
      three-level walk. */
  method CodexDayDirs(base: Dir, now: Time, earliest: int) returns (days: seq<Dir>)
    ensures days == KeptDirs(Cutoff(now, earliest), ThreeDown(base))
    ensures forall date, dir ::
              IsPrintable(date) && dir in ThreeDown(base) && dir.path == base.path + DateNames(date) ==>
                (dir in days <==> IsWalked(now, earliest, date))
  {
    forall date, dir | IsPrintable(date) && dir in ThreeDown(base) && dir.path == base.path + DateNames(date)
      ensures dir in KeptDirs(Cutoff(now, earliest), ThreeDown(base)) <==> IsWalked(now, earliest, date)
    {
      WalkedIff(base, now, earliest, date, dir);
    }
    var cutoff := Cutoff(now, earliest);
    var years := SubdirsFlat([base]);
    SubdirsPaths([base], base.path, |base.path|);
    if cutoff.None? {
      var months := SubdirsFlat(years);
      days := SubdirsFlat(months);
      EverythingKept(days);
      return;
    }
    days := [];
    for i := 0 to |years|
      invariant days == KeptDirs(cutoff, Subdirs(Subdirs(years[..i])))
    {
      OneMore(years, i);
      KeptDirsAppend(cutoff, Subdirs(Subdirs(years[..i])), Subdirs(Subdirs([years[i]])));
      var found := WalkYear(cutoff.value, years[i]);
      days := days + found;
    }
    assert years[..|years|] == years;
  }

  /** Which dates the walk reaches: those no more than 60 days before the day of `now`, and
      all of them when those 60 days reach back before the epoch. Where the platform has no
      such instant at all, those from the epoch on. */
  predicate IsWalked(now: Time, earliest: int, date: Date)
    requires IsDate(date)
  {
    var back := now - 5_184_000_000_000_000;
    if back < earliest then DayNumber(date) >= 0
    else back < 0 || DayNumber(date) >= now / 86_400_000_000_000 - 60
  }

  lemma {:induction false} WalkedIff(base: Dir, now: Time, earliest: int, date: Date, dir: Dir)
    requires IsPrintable(date) && dir in ThreeDown(base) && dir.path == base.path + DateNames(date)
    ensures dir in KeptDirs(Cutoff(now, earliest), ThreeDown(base)) <==> IsWalked(now, earliest, date)
  {
    var cut := Cutoff(now, earliest);
    KeptDirsContains(cut, ThreeDown(base), dir);
    DateNamesReadBack(date);
    CutoffDay(now, earliest);
    if cut.Some? {
      NotBeforeIff(date, cut.value);
    }
  }

  /** The cutoff as a day count. */
  lemma {:induction false} CutoffDay(now: Time, earliest: int)
    ensures var cut, back := Cutoff(now, earliest), now - 5_184_000_000_000_000;
            && (cut.None? <==> earliest <= back < 0)
            && (cut.Some? ==>
                  && IsDate(cut.value)
                  && DayNumber(cut.value) == if back < earliest then 0 else now / 86_400_000_000_000 - 60)
  {
    var start: Time := if now - (SCAN_WINDOW + RESUME_SLACK) >= earliest then now - (SCAN_WINDOW + RESUME_SLACK) else 0;
    CivilFromDaysIsExact(DayOf(start));
    DayOfIs(start);
    SixtyDays(now);
  }

  lemma {:induction false} DayOfIs(t: Time)
    ensures DayOf(t) == if t < 0 then 0 else t / 86_400_000_000_000
  {
    assert t >= 0 ==> t / 1_000_000_000 / 86_400 == t / 86_400_000_000_000;
  }

  lemma {:induction false} SixtyDays(now: int)
    ensures SCAN_WINDOW + RESUME_SLACK == 5_184_000_000_000_000
    ensures (now - 5_184_000_000_000_000) / 86_400_000_000_000 == now / 86_400_000_000_000 - 60
  {
  }

  lemma {:induction false} NotBeforeIff(a: Date, b: Date)
    requires IsDate(a) && IsDate(b)
    ensures !Before(a, b) <==> DayNumber(a) >= DayNumber(b)
  {
    if Before(a, b) {
      DayNumberIsMonotone(a, b);
    } else if Before(b, a) {
      DayNumberIsMonotone(b, a);
    }
  }

  /** The body of the walk for one year directory. */
  method WalkYear(cut: Date, ydir: Dir) returns (days: seq<Dir>)
    requires |ydir.path| > 0
    ensures days == KeptDirs(Some(cut), Subdirs(Subdirs([ydir])))
  {
    var y := ydir.path[|ydir.path| - 1];
    days := [];
    if YearPruned(cut, y) {
      YearPruneIsSafe(cut, ydir);
      return;
    }
    var months := SubdirsFlat([ydir]);
    SubdirsPaths([ydir], ydir.path, |ydir.path|);
    for i := 0 to |months|
      invariant days == KeptDirs(Some(cut), Subdirs(months[..i]))
    {
      OneMore(months, i);
      KeptDirsAppend(Some(cut), Subdirs(months[..i]), Subdirs([months[i]]));
      assert months[i] in months && months[i].path[|ydir.path| - 1] == y;
      var found := WalkMonth(cut, y, months[i]);
      days := days + found;
    }
    assert months[..|months|] == months;
  }

  /** The body of the walk for one month directory. */
  method WalkMonth(cut: Date, y: Name, mdir: Dir) returns (days: seq<Dir>)
    requires |mdir.path| > 1 && mdir.path[|mdir.path| - 2] == y && !YearPruned(cut, y)
    ensures days == KeptDirs(Some(cut), Subdirs([mdir]))
  {
    var n := |mdir.path|;
    var m := mdir.path[n - 1];
    if MonthPruned(cut, y, m) {
      MonthPruneIsSafe(cut, mdir);
      return [];
    }
    var ddirs := SubdirsFlat([mdir]);
    SubdirsPaths([mdir], mdir.path, n);
    days := [];
    for j := 0 to |ddirs|
      invariant days == KeptDirs(Some(cut), ddirs[..j])
    {
      var ddir := ddirs[j];
      assert ddir in ddirs && ddir.path[n - 1] == m && ddir.path[n - 2] == y;
      assert ddirs[..j + 1][..j] == ddirs[..j];
      if DayPruned(cut, y, m, ddir.path[n]) {
        continue;
      }
      days := days + [ddir];
    }
    assert ddirs[..|ddirs|] == ddirs;
  }

  // ----- What the prune means -----

  /** Dates that agree with the leading numeric names of a directory. */
  predicate CouldHold(y: Name, m: Name, d: Name, date: Date) {
    DirNum(y).Some? ==>
      && date.y == DirNum(y).value
      && (DirNum(m).Some? ==>
            && date.m == DirNum(m).value
            && (DirNum(d).Some? ==> date.d == DirNum(d).value))
  }

  /** A directory is skipped exactly when every date its numeric names still allow lies
      before the cutoff; a name that is not a number rules nothing out. */
  lemma {:induction false} KeptIffReachable(cut: Date, y: Name, m: Name, d: Name)
    ensures Kept(Some(cut), y, m, d) <==> exists date :: CouldHold(y, m, d, date) && !Before(date, cut)
  {
    if Kept(Some(cut), y, m, d) {
      var best := Date(
        if DirNum(y).Some? then DirNum(y).value else cut.y + 1,
        if DirNum(m).Some? then DirNum(m).value else cut.m + 1,
        if DirNum(d).Some? then DirNum(d).value else cut.d + 1);
      assert CouldHold(y, m, d, best) && !Before(best, cut);
    }
  }

  /** Reading printed directory names back gives the date that was printed. */
  lemma {:induction false} DateNamesReadBack(date: Date)
    requires IsPrintable(date)
    ensures DirNum(DateNames(date)[0]) == Some(date.y)
    ensures DirNum(DateNames(date)[1]) == Some(date.m)
    ensures DirNum(DateNames(date)[2]) == Some(date.d)
  {
    Decimal.ParseSignedOfPadded(date.y, 4, I64_MIN, I64_MAX);
    Decimal.ParseSignedOfPadded(date.m, 2, I64_MIN, I64_MAX);
    Decimal.ParseSignedOfPadded(date.d, 2, I64_MIN, I64_MAX);
  }

  lemma {:induction false} EpochDate()
    ensures CivilFromDays(0) == Date(1970, 1, 1)
  {
    assert DayNumber(Date(1970, 1, 1)) == 0;
    CivilFromDaysIsOnto(Date(1970, 1, 1));
  }

  lemma {:induction false} FiledDateIsCivil(t: Time)
    ensures FiledDate(t) == CivilFromDays(DayOf(t))
  {
    EpochDate();
  }

  lemma {:induction false} FiledDateIsMonotone(t: Time, t': Time)
    requires t <= t'
    ensures !Before(FiledDate(t'), FiledDate(t))
  {
    FiledDateIsCivil(t);
    FiledDateIsCivil(t');
    CivilFromDaysIsMonotone(DayOf(t'), DayOf(t));
  }

  /** A cutoff is the filing date of some instant no later than window plus slack ago,
      or of the epoch. */
  lemma {:induction false} CutoffIsFiledDate(now: Time, earliest: int, t: Time) returns (from: Time)
    requires t >= now - (SCAN_WINDOW + RESUME_SLACK)
    requires Cutoff(now, earliest).Some?
    ensures Cutoff(now, earliest) == Some(FiledDate(from))
    ensures FiledDate(t) == FiledDate(if t < 0 then 0 else t)
    ensures from <= if t < 0 then 0 else t
  {
    EpochDate();
    var start := now - (SCAN_WINDOW + RESUME_SLACK);
    from := if start >= earliest then start else 0;
    assert CivilDate(0) == Some(CivilFromDays(0));
  }

  /** The directory a rollout was filed under is never skipped while the rollout is no
      older than the window plus the slack. */
  lemma {:induction false} FreshDayIsKept(now: Time, earliest: int, t: Time)
    requires t >= now - (SCAN_WINDOW + RESUME_SLACK)
    ensures DayKept(Cutoff(now, earliest), DayDir(t))
  {
    if Cutoff(now, earliest).Some? {
      var from := CutoffIsFiledDate(now, earliest, t);
      FiledDateIsMonotone(from, if t < 0 then 0 else t);
      DateNamesReadBack(FiledDate(t));
      KeptIfNotBefore(FiledDate(from), FiledDate(t));
    }
  }

  lemma {:induction false} KeptIfNotBefore(cut: Date, date: Date)
    requires IsPrintable(date) && !Before(date, cut)
    ensures DayKept(Some(cut), DateNames(date))
  {
    DateNamesReadBack(date);
  }

  /** In a store laid out by day, the walk finds the directory of every fresh rollout. */
  lemma {:induction false} FreshDayIsWalked(base: Dir, now: Time, earliest: int, t: Time, dir: Dir)
    requires t >= now - (SCAN_WINDOW + RESUME_SLACK)
    requires dir in ThreeDown(base) && dir.path == base.path + DayDir(t)
    ensures dir in KeptDirs(Cutoff(now, earliest), ThreeDown(base))
  {
    FreshDayIsKept(now, earliest, t);
    KeptDirsContains(Cutoff(now, earliest), ThreeDown(base), dir);
  }

  /** The day a rollout is filed under, as a count: whole days since the epoch. */
  lemma {:induction false} FiledDateIsDay(t: Time)
    ensures IsDate(FiledDate(t))
    ensures DayNumber(FiledDate(t)) == if t < 0 then 0 else t / 86_400_000_000_000
  {
    FiledDateIsCivil(t);
    CivilFromDaysIsExact(DayOf(t));
    DayOfIs(t);
  }

  /** Years are printed with four digits at least, months and days with two. */
  lemma {:induction false} DateNamesArePadded(date: Date)
    requires IsPrintable(date)
    ensures forall i :: 0 <= i < 3 ==> DateNames(date)[i].Text? && Decimal.AllDigits(DateNames(date)[i].text)
    ensures |DateNames(date)[0].text| >= 4 && |DateNames(date)[1].text| == 2 && |DateNames(date)[2].text| == 2
    ensures date.y <= 9999 ==> |DateNames(date)[0].text| == 4
  {
    Decimal.PaddedLength(date.y, 4);
    Decimal.PaddedLength(date.m, 2);
    Decimal.PaddedLength(date.d, 2);
    assert Decimal.Power(2) == 10 * Decimal.Power(1) == 100 && Decimal.Power(4) == 100 * Decimal.Power(2);
  }

  /** One level down are exactly the folders, each under its own name. */
  lemma {:induction false} SubdirsAre(dirs: seq<Dir>, dir: Dir)
    ensures dir in Subdirs(dirs) <==>
            exists parent, name ::
              && parent in dirs && Folder(name, dir.entries) in parent.entries
              && dir.path == parent.path + [name]
  {
    if dirs != [] {
      var init, last := dirs[..|dirs| - 1], dirs[|dirs| - 1];
      assert dirs == init + [last];
      SubdirsAre(init, dir);
      ChildDirsAre(last.path, last.entries, dir);
    }
  }

  lemma {:induction false} ChildDirsAre(path: seq<Name>, entries: seq<Node>, dir: Dir)
    ensures dir in ChildDirs(path, entries) <==>
            exists name :: Folder(name, dir.entries) in entries && dir.path == path + [name]
  {
    if entries != [] {
      var init, last := entries[..|entries| - 1], entries[|entries| - 1];
      assert entries == init + [last];
      ChildDirsAre(path, init, dir);
      assert forall node :: node in entries <==> node in init || node == last;
    }
  }
}
