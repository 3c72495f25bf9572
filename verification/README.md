# Verification of gwm's core algorithms

gwm manages git worktrees. Around its git plumbing it has a number of self-contained
algorithms whose correctness its users rely on without seeing them: which session
directories are walked, how configuration layers are merged and attributed, what a `when`
expression means, how the daemon frames requests and limits connections, what `gwm clean`
deletes, which host a remote URL names. This project models those algorithms in Dafny and
proves what they promise, for all inputs and all runs.

## Modules

| module | what it models |
|---|---|
| `Calendar`, `CodexWalk` | the day count to Gregorian date conversion, and the date-pruned walk over `YYYY/MM/DD` directories that rests on it |
| `Sessions`, `SessionIds`, `ClaudeScan`, `ClaudeSweep`, `Detection`, `SummaryOrder`, `DetectionOrder`, `Determinism` | the stable session order, the registry of running sessions, the scan of the Claude Code store and the look-up of one session in it, matching sessions to worktrees, the pin overlay, and when the outcome depends on the order of listings |
| `ParallelExec`, `ParallelRuns` | the fan-out of `gwm exec`: workers, one atomic counter, one slot per item |
| `TomlTree`, `MergePaths`, `RowOrder`, `Attribution` | layering of two TOML trees, flattening to rows, and which layer a row comes from |
| `ConfigKeys`, `ConfigEdit`, `ConfigRemove`, `ConfigOutcome` | dotted keys, the path-addressed editor behind `gwm config set` and `unset`, when they succeed, and the write that validates first |
| `WhenTokens`, `WhenLayout`, `WhenParser` | the tokenizer and the cursor-driven evaluator of `when` expressions |
| `Framing`, `ConnectionCap`, `Subscription`, `PipeName` | the daemon: request lines, live connections, pushed snapshots, the default pipe name |
| `Placeholders` | single-pass expansion of `{token}` templates |
| `CleanDirs`, `Clean` | which directories may be cleaned; sizing, gating and deleting them |
| `RemoteUrl` | parsing the `origin` URL |
| `Decimal`, `Orders`, `Text`, `Utf8`, `Wrappers` | what the others share |

Loops are methods proved against a specification function, and the properties are lemmas
about that function; code without loops or state is functions. Automatic induction is off for
every lemma: each induction step is written out. Concurrency is modelled as
interleaved atomic steps. Operating system calls, parsers of libraries and the clock are
parameters or inputs.

## What the code does, where that is not what one would expect

- `worktrees_differ` is documented to compare every field but the age. It does not compare
  the note either, so an edited note is not pushed (`Subscription.DocumentedComparisonIff`,
  `Subscription.EditedNoteIsSilent`).
- Rows are attributed to layers by what the two files declare. Where the repository replaces
  an array of tables, a default filled into its table is attributed to the user who declared
  that field in the table replaced, though the value shown is another
  (`Attribution.PlainAttributionIff`, `Attribution.RequiredStepIsMisattributed`).
- The comparison is by key text, and a dot in a quoted key makes two keys look alike. Most of
  the schema has no room for that, but the dotted modal contexts under `tui.keys.modal`, such
  as `config.edit`, can be written quoted or as nested tables. When the user writes one and
  the repository the other, the user's binding is shown as the repository's
  (`Attribution.TextAttributionIff`, `Attribution.DottedKeyIsMisattributed`).
- `gwm config unset` through an inline table or a plain array reports success and removes
  nothing (`ConfigRemove.RemoveThenGet`, `ConfigRemove.InlineTableSurvivesUnset`).
- The `when` evaluator silently drops everything behind the first atom that no operator
  joins to what comes next (`WhenParser.TrailingTokensIgnored`).
- The list of sessions of a worktree is the same for every order of discovery only while no
  two different sessions in it have the same key (`SummaryOrder.SummaryOrderIff`).
- A pin among scanned sessions of one id and key shows whichever was scanned first, and a pin
  that has to be looked up in the store shows the first directory listed that has its file
  (`Determinism.DetectionOrderIff`, `Determinism.TiedIsFound`,
  `Determinism.TwoCopiesDependOnOrder`).
- A pin with a control character can list one session id twice
  (`Detection.AddPinDuplicatesIff`, `Detection.ControlCharacterRepeatsId`).
- Of several registry files for one session, whether it is alive does not depend on the order
  of the files, but the name shown can (`ClaudeScan.NameOrderIff`,
  `ClaudeScan.ResumedSessionNameDependsOnOrder`).
- `host:path` without a user is misread when the path contains an `@`
  (`RemoteUrl.BareScpRoundTrip`, `RemoteUrl.AtSignInPath`).
- A repository path that ends in `.git` loses that ending unless the URL prints the suffix
  once more (`RemoteUrl.UrlRoundTrip`), and so does a link built from it
  (`RemoteUrl.WebLinkReadsBack`).
- The top 719 468 day counts of `i64` overflow in the date conversion
  (`Calendar.CivilFromDaysFits`); a `SystemTime` does not reach them.
- With more than one accept loop `try_acquire` could refuse below the cap
  (`ConnectionCap.TwoAcceptorsRefuseTooEarly`); there is one.

## Model

| member | source | states |
|---|---|---|
| `Calendar.CivilFromDaysIsExact` | src/agent_sessions.rs:800-811 | for every day count, negative ones included, the result is a real date, and counting days to it year by year and month by month under the leap rule gives the day count back |
| `Calendar.CivilFromDaysIsOnto` | src/agent_sessions.rs:800-811 | every real date is the image of its own day number, so the conversion is a bijection |
| `Calendar.CivilFromDaysIsMonotone` | src/agent_sessions.rs:800-811 | a day comes before another exactly when its date comes before the other in (year, month, day) order |
| `Calendar.DayNumberIsMonotone` | src/agent_sessions.rs:800-811 | the independent count is strictly increasing on real dates |
| `Calendar.CivilFromDaysFits` | src/agent_sessions.rs:800-811 | no step leaves `i64` except for the top 719 468 day counts, where the first addition does |
| `Calendar.EraRange` | src/agent_sessions.rs:802-803 | the day of the era is in 0..=146096 under division that truncates, and the era is the floor |
| `Calendar.YearOfEraRange` | src/agent_sessions.rs:804-805 | the year of the era is in 0..=399, the day of the year in 0..=365, and they put the day of the era back together |
| `Calendar.LastDayIsLeap` | src/agent_sessions.rs:804-805 | a 366th day of a March-based year only occurs when that year ends in a real 29 February |
| `Calendar.MarchMonthRange` | src/agent_sessions.rs:806-808 | the month index is in 0..=11 and the day falls inside the month it picks |
| `CodexWalk.CodexDayDirs` | src/agent_sessions.rs:853-887 | the pruned three-level walk returns, in the same order, exactly the kept directories of the full walk, and the full walk when there is no cutoff; the directory of a date is among them if and only if its day is no earlier than the whole day 60 days back, or than the epoch when that instant cannot be represented, and always when it lies before the epoch |
| `CodexWalk.WalkYear` | src/agent_sessions.rs:863-885 | one year directory: its pruned branch holds no kept directory |
| `CodexWalk.WalkMonth` | src/agent_sessions.rs:868-884 | one month directory, likewise |
| `CodexWalk.SubdirsFlat` | src/agent_sessions.rs:781-795 | the directories one level below, in order |
| `CodexWalk.KeptIffReachable` | src/agent_sessions.rs:864-881 | a directory is skipped exactly when every date its numeric name components still allow lies before the cutoff; a component that is no number never causes a skip |
| `CodexWalk.KeptDirsContains` | src/agent_sessions.rs:853-887 | what the walk returns are the directories of the full walk that are kept, no more and no fewer |
| `CodexWalk.DateNamesReadBack` | src/agent_sessions.rs:823-832 | the zero-padded names printed for a date parse back to its year, month and day |
| `CodexWalk.FreshDayIsKept` | src/agent_sessions.rs:823-860 | the directory printed for an instant within window plus slack is never skipped, whatever the clock says |
| `CodexWalk.FreshDayIsWalked` | src/agent_sessions.rs:823-887 | in a store laid out by day the walk returns the directory of every rollout that recent |
| `CodexWalk.CutoffIsFiledDate` | src/agent_sessions.rs:814-858 | the cutoff is the filing date of some instant no later than window plus slack ago, clamped at the epoch |
| `CodexWalk.FiledDateIsDay` | src/agent_sessions.rs:814-835 | an instant is filed under the date of its whole days since the epoch, and under the epoch when it lies before |
| `CodexWalk.DateNamesArePadded` | src/agent_sessions.rs:823-832 | the names of a date are digits only: four or more for the year, two each for month and day |
| `CodexWalk.SubdirsAre` | src/agent_sessions.rs:781-795 | one level down are exactly the directories below the given ones, each under its own name |
| `Decimal.ParseSignedIs` | src/agent_sessions.rs:864-881 | digits behind at most one sign read as their value when it fits the type |
| `Decimal.ParseSignedOnly` | src/agent_sessions.rs:864-881 | and nothing else reads as a number |
| `Decimal.ParseUnsignedIs` | src/config_cli.rs:336-356 | digits behind at most one plus read as their value when it fits the type |
| `Decimal.ParseUnsignedOnly` | src/config_cli.rs:336-356 | and nothing else reads as an index |
| `Sessions.SortedIsUnique` | src/agent_sessions.rs:957-959 | a sorted list is determined by its per-key sublists, so every stable sort gives the same list |
| `Sessions.SortIsStable` | src/agent_sessions.rs:957-959 | sorting keeps sessions with one key in their order |
| `Sessions.SortPermutes` | src/agent_sessions.rs:957-959 | sorting loses and invents nothing, and the result is ordered |
| `Sessions.PermutationSortsAlike` | src/agent_sessions.rs:957-959 | when different sessions have different keys, every order of discovery sorts to the same list |
| `Sessions.OrderIndependentIff` | src/agent_sessions.rs:957-959 | the sorted list is the same for every order of discovery if and only if no two different sessions share a key |
| `Sessions.SortedIff` | src/agent_sessions.rs:957-959 | a list is sorted exactly when, of any two sessions, the earlier is not ended unless both are, is at least as recent where that is equal, and then comes no later by kind and by id |
| `Sessions.SortOrders` | src/agent_sessions.rs:957-959 | so sorting puts running sessions before ended ones and, among each, the most recently active first |
| `Orders.StringLessIff` | src/agent_sessions.rs:957-959 | ids are ordered by the first character in which they differ, and a beginning comes before what it begins |
| `Detection.SummarizeWith` | src/agent_sessions.rs:906-931 | per worktree identifier: the matching sessions, sorted; identifiers that match nothing are absent |
| `Detection.FileSession` | src/agent_sessions.rs:921-925 | one session is pushed once for each worktree it matches |
| `Detection.MatchedCount` | src/agent_sessions.rs:919-926 | a session is listed as often as it was scanned times the entries of that identifier it matches |
| `SummaryOrder.SummaryOrderIff` | src/agent_sessions.rs:906-931 | the summary is the same for every order of the scanned sessions if and only if no two different sessions that are listed together share a key |
| `SummaryOrder.SummaryIsOrderIndependent` | src/agent_sessions.rs:906-931 | then every permutation gives the same summary |
| `SummaryOrder.MatchedWithKey` | src/agent_sessions.rs:919-929 | sessions of one key are listed in the order in which they were scanned |
| `SummaryOrder.TiedApartIsDeterministic` | src/agent_sessions.rs:906-931 | one session file copied into the directories of two worktrees ties the keys and still leaves the summary the same |
| `Detection.OverlayPins` | src/agent_sessions.rs:1104-1129 | the loop over the pins is the pin-by-pin overlay |
| `Detection.OverlayKeepsSorted` | src/agent_sessions.rs:1104-1129 | every list stays sorted |
| `Detection.OverlayKeeps` | src/agent_sessions.rs:1104-1129 | nothing listed is lost, and a worktree without pins keeps its list |
| `Detection.PinIsPresent` | src/agent_sessions.rs:1104-1129 | every pin that resolves is listed at its worktree afterwards, later pins notwithstanding |
| `Detection.AddPinDuplicatesIff` | src/agent_sessions.rs:1124-1127 | a pin keeps the ids of a list distinct exactly when its id is listed already or the session it resolves to has an id that is not |
| `Detection.OverlayKeepsIdsDistinct` | src/agent_sessions.rs:1104-1129 | with pins free of control characters no id is ever listed twice |
| `Detection.ControlCharacterRepeatsId` | src/agent_sessions.rs:1113-1127 | a pin written with a control character can list one id twice: it resolves by the raw text and is stored under the cleaned one |
| `Detection.DetectAll` | src/agent_sessions.rs:1008-1021 | the whole of detection, given what the backends scanned and the store as it is listed |
| `Detection.DetectedIsInOrder` | src/agent_sessions.rs:1008-1021 | every list of the result, pins included, shows running sessions before ended ones and the most recently active first |
| `Detection.ListedCount` | src/agent_sessions.rs:906-931 | without pins a session is listed under an identifier as often as it was scanned times the worktrees of that identifier at its own path, and no list is empty |
| `Detection.ResolveIs` | src/agent_sessions.rs:1114-1119 | a pin means the first scanned session of its id, and one in the store only when none was scanned |
| `Detection.OneMorePin` | src/agent_sessions.rs:1108-1129 | one more pin adds the session it resolves to, at the worktree it names, unless a session of its id is listed there; every other list keeps its sessions |
| `ClaudeSweep.ClaudeSessionById` | src/agent_sessions.rs:1135-1163 | the first directory, as listed, with a fresh file of that name decides; a name with a separator finds nothing |
| `ClaudeSweep.SweepIs` | src/agent_sessions.rs:1135-1163 | the session is read from the first directory that holds a fresh file of the name, under that directory itself; an id with a slash or a backslash finds nothing, and neither does one without such a file |
| `ClaudeSweep.SweepInAnyOrder` | src/agent_sessions.rs:1135-1163 | whether an id is found, and under which id it is then listed, does not depend on the order of the directories |
| `ClaudeSweep.SweepOrderIff` | src/agent_sessions.rs:1135-1163 | what an id resolves to is the same for every order of the directories if and only if no two of them resolve it differently |
| `DetectionOrder.OverlayOrderIff` | src/agent_sessions.rs:1104-1129 | the overlay is the same for every order of the directories if and only if no pin that has to be looked up, and whose id is not listed by then, is resolved differently by two of them |
| `DetectionOrder.LaidAlike` | src/agent_sessions.rs:1104-1129 | two pools that resolve every pin whose id is not yet listed alike give the same overlay |
| `DetectionOrder.OneMore` | src/agent_sessions.rs:1104-1129 | a pin resolved differently makes a difference that no later pin takes back |
| `Determinism.ScannedInAnyOrder` | src/agent_sessions.rs:1114-1118 | the scanned session a pin finds is the same for every order, unless two different sessions of its id share the key that comes first |
| `Determinism.TiedIsFound` | src/agent_sessions.rs:1114-1118 | of two such sessions the pin finds the one that was scanned first |
| `Determinism.DetectionOrderIff` | src/agent_sessions.rs:1008-1021 | what is detected is the same for every order of the scanned sessions and of the directories if and only if no two different sessions that are listed together share a key and no pin that adds to a list is unsettled by one order or the other |
| `Determinism.PlainOrderIff` | src/agent_sessions.rs:1104-1129 | for pins without control characters the condition on the pins is that each is listed at its worktree by the scan or settled |
| `Determinism.DetectionIsDeterministicIff` | src/agent_sessions.rs:1008-1021 | so for such pins detection is deterministic if and only if the lists tell their sessions apart and every pin is listed or settled; every list is sorted either way |
| `Determinism.DistinctKeysSettle` | src/agent_sessions.rs:1008-1021 | with distinct keys only a pin that has to be looked up, and that two directories resolve differently, is unsettled |
| `Determinism.TwoCopiesDependOnOrder` | src/agent_sessions.rs:1135-1163 | with one session file in two directories the pin shows whichever is listed first |
| `ClaudeScan.ClaudeLiveRegistry` | src/agent_sessions.rs:230-276 | the registry holds one entry per session id, combined from its files in the order they are read |
| `ClaudeScan.RegistryIsFold` | src/agent_sessions.rs:230-276 | a session has an entry exactly when a file names it, and the entry combines all its files |
| `ClaudeScan.DeadIffAllDead` | src/agent_sessions.rs:230-276 | a session counts as dead exactly when all its recorded processes are, whatever the order |
| `ClaudeScan.KeptNameIs` | src/agent_sessions.rs:230-276 | which name is kept: that of the first live entry, else the first one before it, else the first of a live one behind it |
| `ClaudeScan.DeadNameIs` | src/agent_sessions.rs:230-276 | and the first name of all where every process is dead |
| `ClaudeScan.FoldCanKeep` | src/agent_sessions.rs:230-276 | the name kept is one of the candidates: a live name, or a dead one next to a nameless live process or with no live one |
| `ClaudeScan.KeptBySomeOrder` | src/agent_sessions.rs:230-276 | each of those candidates is kept under some order of the files |
| `ClaudeScan.NameOrderIff` | src/agent_sessions.rs:230-276 | the name kept is the same for every order of the files if and only if all names that can be shown agree, and a nameless live process next to a name has a named live one beside it |
| `ClaudeScan.ResumedSessionNameDependsOnOrder` | src/agent_sessions.rs:257-272 | a killed and resumed session whose new process has no name yet takes over the old name or stays without one, depending on which file is read first |
| `ClaudeScan.ScanClaudeDir` | src/agent_sessions.rs:345-382 | the fresh session files of one directory, in order, under one working directory |
| `ClaudeScan.SessionIs` | src/agent_sessions.rs:345-382 | a fresh file is a session unless its name is nothing but control characters; it has ended exactly when registry files name it and all their processes are dead, and it is called by its registered name or else by its first text |
| `SessionIds.PrintableOf` | src/agent_sessions.rs:100-107 | a session id is its characters in order, without those below the space, the delete character and the 32 behind it |
| `ClaudeScan.ScanImpl` | src/agent_sessions.rs:295-340 | the claimed sessions, and with the sweep the unclaimed ones behind them |
| `ClaudeScan.ScanClaimed` | src/agent_sessions.rs:303-316 | the loop over the worktrees; a slug is claimed exactly when one worktree has it |
| `ClaudeScan.Sweep` | src/agent_sessions.rs:326-338 | the loop over the store: directories that are not claimed |
| `ClaudeScan.EveryDirectoryOnce` | src/agent_sessions.rs:295-340 | the full scan reads every directory of the store exactly once: under the worktree with its slug when there is exactly one, under the directory itself otherwise |
| `ClaudeScan.SlugIs` | src/agent_sessions.rs:1207-1213 | the slug is the text of the path with a dash for every character that is no ASCII letter or digit |
| `ClaudeScan.SlugsCollide` | src/agent_sessions.rs:1207-1213 | two different paths can have one slug |
| `ParallelExec.StepInv` | src/exec.rs:464-484 | every claim and every write, by any worker at any time, keeps the invariant: claimed indices are distinct, unwritten, and below the counter |
| `ParallelRuns.ReachableInv` | src/exec.rs:458-486 | the invariant holds after every interleaving |
| `ParallelExec.NoDeadlock` | src/exec.rs:464-486 | some worker can move exactly until all have stopped |
| `ParallelRuns.ClaimBooks` | src/exec.rs:465-468 | after every run, an index has been claimed exactly once if the counter has passed it, and never otherwise |
| `ParallelRuns.WriteBooks` | src/exec.rs:477-483 | after every run, a filled slot has been written exactly once and an empty one never |
| `ParallelRuns.RunLength` | src/exec.rs:454-492 | every run has at most 2n + workers steps, has that many exactly when all workers have stopped, and by then each index was claimed once and each slot written once |
| `ParallelExec.StoppedIsSequential` | src/exec.rs:487-491 | when all workers have stopped every slot holds its item's own result, so the last unwrapping cannot fail, and the counter was raised n + workers times |
| `ParallelExec.RunInDirsParallel` | src/exec.rs:454-492 | under an arbitrary scheduler the results are in input order, one per item under its name: what running its program in its directory with its arguments gave, or an error where there is no program |
| `ParallelExec.ExitCodeOfFanOut` | src/exec.rs:522-528 | the exit code is 0 or 1, and 0 exactly when every item had a program and each program succeeded |
| `ParallelExec.ResolveJobs` | src/exec.rs:417-423 | the first of flag, profile and global setting decides, a zero there means one, and so does none of them |
| `ParallelExec.Workers` | src/exec.rs:456-457 | at least one worker and at most one per item, and the number of jobs in between |
| `TomlTree.MergeToml` | src/config.rs:1747-1761 | the key-by-key loop merges tables recursively and lets the upper layer win everywhere else |
| `TomlTree.MergeLeaves` | src/config.rs:1747-1761 | a leaf of the merge is the upper layer's leaf, or the lower one's where the upper layer leaves room for it |
| `TomlTree.FlattenValue` | src/config.rs:1834-1853 | the recursive walk pushes the rows of the specification, rendered, behind those already there |
| `TomlTree.FlattenIsLeaves` | src/config.rs:1834-1853 | rows are exactly the leaves of the tree, each under its own path; an empty array gives none |
| `TomlTree.RowsAreLeaves` | src/config.rs:1834-1853 | the same from the root |
| `TomlTree.MergeRows` | src/config.rs:1747-1853 | flattening commutes with layering: the rows of the merge are the upper layer's rows and the lower layer's rows that it does not shadow |
| `MergePaths.MergeReaches` | src/config.rs:1747-1761 | at any path of keys: where the upper layer ends in a value that is what the merge holds, where it ends in a table so does the merge, and elsewhere the merge holds what the lower layer does unless the upper one has a value in the way |
| `RowOrder.FlattenInOrder` | src/config.rs:1834-1853 | rows come in order: where two paths part, the earlier row has the key that comes first as text, or the smaller index |
| `RowOrder.RowsAreDistinct` | src/config.rs:1834-1853 | no path has two rows |
| `RowOrder.WhatIsARow` | src/config.rs:1834-1853 | a scalar is one row, and so is an array that holds anything but tables; an empty array is none |
| `TomlTree.ProviderIsRight` | src/config.rs:1912-1944 | the provider of a row of the effective configuration, defaults included, is where its value is from: the repository, the user, or neither; loading may drop leaves, such as a blank optional command |
| `TomlTree.AttributionIff` | src/config.rs:1905-1941 | attribution by path names the provider of any row, filled-in defaults included, exactly when it is not a default shown in place of a value the user declared and the repository replaced together with its surroundings |
| `TomlTree.AttributionIsRight` | src/config.rs:1747-1761 | for the rows of the merge itself, before defaults: one of the repository carries its value, one of the user the global one, and none is attributed to the defaults |
| `Attribution.DeclaredKeys` | src/config.rs:1895-1903 | the set of rendered row keys of one layer |
| `Attribution.ResolvedRows` | src/config.rs:1912-1944 | nothing when the merged layers do not load; otherwise every row of the effective configuration in order, with the first layer that declares its key text |
| `Attribution.TextAttributionIff` | src/config.rs:1922-1941 | for any row, attribution by key text names the provider exactly when the repository declares the path, or declares nothing of that text while the user declares something of that text just where the user provides the path |
| `Attribution.MergedTextAttributionIff` | src/config.rs:1922-1941 | for the rows of the merge itself only another path of the repository with the same text gets in the way |
| `Attribution.RenderIsInjective` | src/config.rs:1838-1848 | on keys that are not empty and hold no `.` or `[`, the text of a path determines the path |
| `Attribution.PlainAttributionIff` | src/config.rs:1912-1944 | with such keys, any row, filled-in defaults included, is attributed to its provider exactly when it is not a default shown in place of a replaced value of the user |
| `Attribution.PlainAttributionIsRight` | src/config.rs:1912-1944 | with such keys, every row of the merge itself, before defaults, is attributed to its layer |
| `Attribution.DottedKeyIsMisattributed` | src/config.rs:1230-1330 | the user's binding under the quoted modal context `config.edit` is shown as the repository's, which writes nested tables |
| `Attribution.ReplacedArrayIsMisattributed` | src/config.rs:1744-1761 | a default filled into a table of the array that replaced the array of the user is attributed to the user |
| `Attribution.RequiredStepIsMisattributed` | src/config.rs:420-435 | the same for `required` of a bootstrap copy step |
| `ConfigKeys.ParseKey` | src/config_cli.rs:331-368 | the segments of a key, or the error of its first bad one |
| `ConfigKeys.ParsedIsKey` | src/config_cli.rs:331-368 | whatever parses has well-formed names and indices that fit the machine |
| `ConfigKeys.ParseRendered` | src/config_cli.rs:331-503 | parsing what was rendered gives the segments back |
| `ConfigKeys.NameIs` | src/config_cli.rs:331-368 | a name is one or more ASCII letters, digits and underscores |
| `ConfigKeys.BareSegmentIs` | src/config_cli.rs:331-368 | a segment without a bracket is a name, or the error for an empty or an invalid one |
| `ConfigKeys.IndexedSegmentIs` | src/config_cli.rs:331-368 | what stands between the first bracket and a closing one at the very end is a plus or an index of 64 bits, looked at before the name in front; otherwise the error says which part is wrong |
| `ConfigKeys.FirstBadSegment` | src/config_cli.rs:331-368 | the first bad segment decides the error |
| `ConfigKeys.SplitDotsIs` | src/config_cli.rs:331-368 | segments are what stands between the dots |
| `ConfigEdit.LookupValue` | src/config_cli.rs:310-329 | the walk with a reassigned cursor is the recursive lookup, errors included |
| `ConfigEdit.LookupIsAt` | src/config_cli.rs:310-329 | looking up segments succeeds exactly when the path of single steps leads somewhere, and to the same value |
| `ConfigEdit.SetValue` | src/config_cli.rs:384-441 | the recursive editor: the new document, also after a failure half way, and the key it reports |
| `ConfigEdit.PadTables` | src/config_cli.rs:419-430 | the padding loop and the append: the index that results |
| `ConfigEdit.SetThenGet` | src/config_cli.rs:384-441 | after a successful set the reported key reads the value set |
| `ConfigEdit.SetPrintsReadableKey` | src/config_cli.rs:310-441 | the key text a set prints, parsed and looked up, reads the value set |
| `ConfigEdit.SetReportsAKey` | src/config_cli.rs:384-441 | the reported key is well formed, with `[+]` resolved to an index |
| `ConfigEdit.SetFrame` | src/config_cli.rs:384-441 | every path that is neither a prefix nor an extension of the key reads as before; where nothing could be read, only empty tables appear, in front of the one the key goes through |
| `ConfigEdit.SetTwice` | src/config_cli.rs:384-441 | setting again through the reported key is setting once, with the second value |
| `ConfigEdit.SetSame` | src/config_cli.rs:384-441 | setting what is there changes nothing |
| `ConfigOutcome.SetSucceedsIff` | src/config_cli.rs:384-441 | a set succeeds if and only if its key is not empty and ends in a field, and every earlier segment meets nothing, or a table without an index, or an array of tables with one |
| `ConfigOutcome.SetFailsWith` | src/config_cli.rs:384-441 | otherwise the first segment that meets something else gives the error, or the index at the end where none does |
| `ConfigOutcome.SetResolves` | src/config_cli.rs:384-441 | the key reported is the key given, with every `[+]` replaced by the length of the array it met |
| `ConfigOutcome.FailedSetGrows` | src/config_cli.rs:384-441 | a set that fails leaves everything that could be read, and adds at most tables on its way |
| `ConfigOutcome.GrowsAt` | src/config_cli.rs:384-441 | in particular every path that led to something still does, and every scalar reads as before |
| `ConfigOutcome.FailedSetMayAddTables` | src/config_cli.rs:384-441 | a failed set of a missing key can leave an empty table in the document, which is then not written |
| `ConfigOutcome.LookupFrom` | src/config_cli.rs:310-329 | looking up goes on from where the first segments lead, or fails as they do |
| `ConfigOutcome.LookupFailsWith` | src/config_cli.rs:310-329 | which error a segment gives that does not lead on |
| `ConfigOutcome.RowKeyIsConfigKey` | src/config_cli.rs:331-503 | the key text of a row is the text of the key that `get`, `set` and `unset` take |
| `ConfigRemove.RemoveValue` | src/config_cli.rs:443-480 | the recursive removal |
| `ConfigRemove.RemoveThenGet` | src/config_cli.rs:443-480 | an accepted unset succeeds, and the key still reads exactly when it read before and runs through an inline table or a plain array |
| `ConfigRemove.InlineTableSurvivesUnset` | src/config_cli.rs:455-463 | an unset inside an inline table reports success and removes nothing |
| `ConfigRemove.RemoveFrame` | src/config_cli.rs:443-480 | nothing outside the key changes |
| `ConfigRemove.RemoveTwice` | src/config_cli.rs:443-480 | removing twice is removing once |
| `ConfigRemove.RemoveUndoesSet` | src/config_cli.rs:384-480 | an unset takes back a set that created only the last field |
| `ConfigOutcome.RemoveFailsWith` | src/config_cli.rs:443-480 | an unset fails, and changes nothing, when its key is empty or when it gets as far as an index at its end or a `[+]` before that |
| `ConfigOutcome.RemoveSucceeds` | src/config_cli.rs:443-480 | every other unset succeeds |
| `ConfigRemove.ConfigFile.WriteAndValidate` | src/config_cli.rs:243-266 | a valid file is never replaced by an invalid one; an invalid one may be edited on |
| `ConfigRemove.ConfigFile.Set` | src/config_cli.rs:104-114 | the result and the file for every outcome: a bad key, a failing edit, an invalid document, success; also where there is no file yet |
| `ConfigRemove.ConfigFile.Unset` | src/config_cli.rs:91-99 | likewise; without a file nothing happens |
| `Utf8.DecodeEncode` | src/bootstrap.rs:474-475 | UTF-8 (section 3 of RFC 3629): decoding what was encoded gives the text back |
| `Utf8.EncodingIs` | src/bootstrap.rs:474-475 | the four forms of section 3 of RFC 3629: for which code points, with which marks, and the number the bytes spell |
| `Utf8.BoundarySplits` | src/bootstrap.rs:512-512 | a character boundary separates the encodings of two halves of the text |
| `Utf8.SliceIsText` | src/bootstrap.rs:512-512 | what lies between two boundaries is itself the encoding of a text, so slicing there cannot panic |
| `Utf8.AfterAscii` | src/bootstrap.rs:478-508 | boundaries lie on both sides of every ASCII byte |
| `WhenTokens.TokenizeWhen` | src/bootstrap.rs:473-515 | the scanning loop over bytes computes the tokens of the specification |
| `WhenTokens.ScanToken` | src/bootstrap.rs:478-512 | one turn of the loop: the token it pushes, between character boundaries |
| `WhenTokens.ScanAtom` | src/bootstrap.rs:499-511 | the inner loop stops at the first white space or binary operator |
| `WhenTokens.TokensAreWellFormed` | src/bootstrap.rs:473-515 | every atom is non-empty, free of ASCII white space, `&&` and `\|\|`, and does not begin with `!` |
| `WhenTokens.AtomsLieBetweenBoundaries` | src/bootstrap.rs:498-512 | every atom is cut out between two character boundaries |
| `WhenTokens.AtomsAreText` | src/bootstrap.rs:512-512 | every atom is the encoding of a text of its own |
| `WhenTokens.TokenizePrint` | src/bootstrap.rs:473-515 | printing well-formed tokens with single spaces and tokenizing gives the same tokens |
| `WhenTokens.PrintNormalises` | src/bootstrap.rs:473-515 | printing the tokens of any expression normalises it without changing its tokens |
| `WhenLayout.TokenizeLayout` | src/bootstrap.rs:473-515 | tokens laid out with any ASCII white space around them, and with none where none is needed, are what is read |
| `WhenParser.Parser.ParseOr` | src/bootstrap.rs:528-536 | moves the cursor as the functional evaluator does; terminates because the cursor only moves on |
| `WhenParser.Parser.ParseAnd` | src/bootstrap.rs:538-546 | likewise for a conjunction |
| `WhenParser.Parser.ParseNot` | src/bootstrap.rs:548-554 | likewise for a negation |
| `WhenParser.Parser.ParseAtom` | src/bootstrap.rs:556-567 | reads one atom, or answers true without moving |
| `WhenParser.EvaluateWhen` | src/bootstrap.rs:440-448 | tokenizes and runs the evaluator |
| `WhenParser.EvalDisj` | src/bootstrap.rs:528-568 | on the tokens of any disjunction of conjunctions of negated atoms, whatever follows, the evaluator consumes just those tokens and returns the value under `!` > `&&` > `\|\|` |
| `WhenParser.FactorDisj` | src/bootstrap.rs:528-568 | every token list is such an expression followed by something it does not continue with |
| `WhenParser.EvaluateWhenIsDenotation` | src/bootstrap.rs:440-448 | the printed text of any expression evaluates to its value, and nothing of it is left unread |
| `WhenLayout.LayoutMeans` | src/bootstrap.rs:440-448 | and so does its text in any other layout |
| `WhenParser.CursorIgnoresValues` | src/bootstrap.rs:528-568 | where the evaluator stops does not depend on the values of the atoms |
| `WhenParser.OnlyListedAtomsMatter` | src/bootstrap.rs:455-463 | two environments that agree on the listed atoms give the same answer |
| `WhenParser.TrailingTokensIgnored` | src/bootstrap.rs:528-568 | everything is read exactly when operators join all atoms; otherwise the rest, from the first atom that nothing joins to its successor, is silently dropped |
| `Framing.Reader.FillBuf` | src/daemon.rs:790-794 | shows the next chunk without consuming it |
| `Framing.Reader.Consume` | src/daemon.rs:803-811 | takes bytes from the front of what is unread |
| `Framing.ReadRequestLine` | src/daemon.rs:773-813 | returns exactly the bytes before the first newline when there is one and the line fits the cap, and leaves exactly the rest unread |
| `Framing.LineBuffer.Append` | src/daemon.rs:802-811 | nothing is put into the buffer of a line beyond the cap |
| `Framing.TakeChunk` | src/daemon.rs:806-811 | a chunk without a newline is buffered whole, or the line is refused |
| `Framing.EndLine` | src/daemon.rs:798-805 | the last chunk of a line: taken up to its newline, or refused |
| `Framing.ChunksDeliver` | src/daemon.rs:773-813 | bytes cut into any chunks deliver the same bytes, so neither the line nor the rest depends on the cut |
| `Framing.HandleConnection` | src/daemon.rs:823-873 | the answers sent are those of the exchange, in order, as many as can be written; the end is that of the exchange when all of them are, and a dropped connection otherwise |
| `Framing.TranscriptOfLines` | src/daemon.rs:823-873 | a stream of lines is answered line by line, in order, each on its own; blank lines and notifications (section 4.1 of the JSON-RPC 2.0 specification) get no answer |
| `Framing.OneLine` | src/daemon.rs:823-873 | one line in front of a stream puts its own answer in front of the others |
| `Framing.StreamSplits` | src/daemon.rs:823-873 | every stream is such lines and a rest that gets no answer: unfinished, overlong, not text, or a subscription |
| `Framing.RepliesInOrder` | src/daemon.rs:823-873 | for a stream of plain lines the answers are one per line that is neither blank nor a request without an id, in order: the dispatched one for a request, the parse error for what is not JSON, the invalid-request error for what is no request |
| `Framing.ExchangeEnds` | src/daemon.rs:823-873 | a stream that does not begin with a line within the cap, a line that is not text, and a subscription end the exchange without an answer |
| `Framing.FirstLineIff` | src/daemon.rs:773-813 | a line is read exactly when the stream begins with it and a line feed, it has none inside, and it fits the cap |
| `ConnectionCap.StepKeepsInv` | src/daemon.rs:440-454 | raising, lowering after a refusal, and dropping keep counter = live guards + refusals in flight |
| `ConnectionCap.RunKeepsCap` | src/daemon.rs:438-454 | over every run the counter never underflows, at most the maximum of guards is live, and with nobody inside it is zero |
| `ConnectionCap.RefusesIff` | src/daemon.rs:441-447 | an attempt is refused exactly when live guards and refusals in flight together reach the maximum |
| `ConnectionCap.SingleAcceptorRefusesAtCap` | src/daemon.rs:710-745 | with the one accept loop there is, exactly when live guards equal the maximum |
| `ConnectionCap.TwoAcceptorsRefuseTooEarly` | src/daemon.rs:441-447 | with two accept loops a connection could be refused while none is live |
| `ConnectionCap.ActiveCounter.FetchAdd` | src/daemon.rs:442-442 | the atomic raise of the counter is the modelled step: a guard, or a refusal in flight |
| `ConnectionCap.ActiveCounter.FetchSub` | src/daemon.rs:443-453 | the atomic lowering is the modelled step, after a refusal or by a dropped guard, and never goes below zero |
| `ConnectionCap.ActiveCounter.TryAcquire` | src/daemon.rs:441-448 | undisturbed, an attempt grants its guard exactly while live guards and refusals in flight are fewer than the maximum, and a refusal leaves no trace |
| `ConnectionCap.ActiveCounter.Release` | src/daemon.rs:450-454 | a dropped guard frees exactly its own slot |
| `Subscription.DifferIsVisible` | src/daemon.rs:208-232 | two snapshots count as different exactly when they differ in something other than ages and notes, so counting as the same is an equivalence |
| `Subscription.DocumentedComparisonIff` | src/daemon.rs:200-236 | the documented comparison (everything but the age) is met exactly where the notes agree or something besides ages and notes differs |
| `Subscription.EditedNoteIsSilent` | src/daemon.rs:200-236 | an edited note alone is not pushed, although only the age is documented as excluded |
| `Subscription.PushIsDestutter` | src/daemon.rs:247-260 | one decision extends the de-stuttering of the successful polls by one poll |
| `Subscription.DestutterIsCurrent` | src/daemon.rs:247-260 | the last of a de-stuttering stands for the latest snapshot, and neighbours differ |
| `Subscription.StreamSubscription` | src/daemon.rs:885-920 | over every run the pushes are the de-stuttering of the successful polls, as many as the connection takes |
| `Subscription.OneTurn` | src/daemon.rs:901-919 | one turn of the loop stops, or adds what the decision says; a failed poll adds nothing |
| `Subscription.SubscriberIsCurrent` | src/daemon.rs:885-920 | after every step of every run the last push stands for the latest successful poll, and no push repeats the one before |
| `Subscription.PollsUntilStopped` | src/daemon.rs:885-920 | one poll at first and one in every turn, whatever the client sends, until a shutdown, a close or a broken connection |
| `Subscription.PushIff` | src/daemon.rs:247-260 | a poll is pushed exactly when it succeeds and shows something other than the last push |
| `PipeName.PipeUserFragment` | src/daemon.rs:941-954 | the character loop computes the fragment |
| `PipeName.FragmentIsBytes` | src/daemon.rs:941-954 | escaping character by character is escaping the UTF-8 encoding byte by byte |
| `PipeName.ReadUserBack` | src/daemon.rs:941-954 | a decoder that reads `_XX` recovers every user name |
| `PipeName.FragmentIsInjective` | src/daemon.rs:941-954 | different users never share a fragment |
| `PipeName.FragmentIsPlain` | src/daemon.rs:941-954 | a fragment holds ASCII letters, digits and underscores only |
| `PipeName.ByteFragmentIs` | src/daemon.rs:941-954 | an ASCII letter or digit stands for itself, any other byte is an underscore and two upper-case hexadecimal digits |
| `PipeName.PlainNameIsItself` | src/daemon.rs:941-954 | a name of ASCII letters and digits is its own fragment |
| `Placeholders.ExpandPlaceholders` | src/config.rs:2706-2778 | without a home directory nothing; otherwise the tilde expansion of the simultaneous substitution of the known tokens |
| `Placeholders.TokenValues` | src/config.rs:2706-2778 | there are seven tokens, and what each stands for, if anything |
| `Placeholders.Expand` | src/config.rs:2757-2773 | the loop over the rest of the template computes that substitution for arbitrary values |
| `Placeholders.FindToken` | src/config.rs:2758-2768 | the three searches find the next token: the last `{` before the first `}` behind a `{` |
| `Placeholders.TokenEndIff` | src/config.rs:2758-2768 | a token is a `{`…`}` pair with no brace between |
| `Placeholders.ReplacesIff` | src/config.rs:2757-2773 | the loop visits exactly those pairs |
| `Placeholders.NothingKnown` | src/config.rs:2757-2773 | a template none of whose tokens has a value expands to itself |
| `Placeholders.TokenAlone` | src/config.rs:2757-2773 | a token alone expands to its value, or to itself where it has none |
| `Placeholders.SubstituteSideBySide` | src/config.rs:2757-2773 | two templates with no token across the seam expand side by side: what is inserted for one part is never read again |
| `CleanDirs.NormalizedProfileDirs` | src/clean.rs:71-125 | the names of all entries, or the error of the first bad one |
| `CleanDirs.NameIsPlain` | src/clean.rs:71-125 | an accepted entry is one plain name: no separator, no `..`, no pathspec character |
| `CleanDirs.PlainNamesItself` | src/clean.rs:71-125 | a plain name is accepted as itself |
| `CleanDirs.NameOfParts` | src/clean.rs:71-125 | an entry, by the parts between its slashes: the one part left without empty and `.` ones, or the error that applies first |
| `CleanDirs.NormalizedArePlain` | src/clean.rs:71-125 | normalising twice is normalising once |
| `CleanDirs.DedupDirs` | src/clean.rs:140-148 | the first of each name, in order |
| `CleanDirs.DedupIsDistinct` | src/clean.rs:140-148 | the same names, each once |
| `CleanDirs.ResolveCleanDirs` | src/clean.rs:163-177 | a selected profile that is absent is an error; one that is present, or the default one when none is selected, gives exactly the names its entries stand for, each once and in order, or the error of its first bad entry; without either, the four built-in names |
| `CleanDirs.ResolvedIsPlainAndDistinct` | src/clean.rs:163-177 | whatever is resolved are plain names, pairwise distinct |
| `Clean.DirSize` | src/clean.rs:186-207 | the bytes of the regular files below a directory, saturating; links are not followed |
| `Clean.SizeOfOneMore` | src/clean.rs:186-207 | one more entry adds its length when it is a file, what is in it when it is a directory, and nothing when it is a link |
| `Clean.ScanWorktree` | src/clean.rs:220-249 | the listed names that are directories, in order, with their sizes |
| `Clean.ScanWorktreeSafe` | src/clean.rs:407-428 | the artifacts that pass the gate, their wrapping sum, and the names that do not |
| `Clean.GatePartitions` | src/clean.rs:411-417 | deletable and skipped partition what was found |
| `Clean.RemoveDirAllTolerant` | src/clean.rs:299-314 | at most three attempts, another one only after "not empty", and success exactly when the last attempt removed it or found nothing |
| `Clean.Worktree.RemoveDirAll` | src/clean.rs:299-314 | what the retried removal of one directory leaves, by the answer that decides |
| `Clean.Worktree.DeleteReclaim` | src/clean.rs:272-280 | deletes in order, stops at the first removal that fails, and on success reports the saturating sum of the sizes |
| `Clean.AllDeleted` | src/clean.rs:272-280 | when every removal succeeds, exactly the named top-level entries are gone |
| `Clean.OthersUntouched` | src/clean.rs:272-280 | whether or not they succeed, every entry with another name is as it was |
| `Clean.CleanKeeps` | src/clean.rs:220-280 | a clean removes exactly the top-level directories that are listed and pass the gate; everything else, links among them, stays as it was |
| `Clean.DeletableSize` | src/clean.rs:186-280 | for distinct names: size before = size after + bytes of the deletable artifacts |
| `Clean.CleanWorktree` | src/clean.rs:272-428 | scan, gate and delete: on success size before = size after + freed, the total announced is what is freed, and the tree left is the tree without the gated directories; it succeeds exactly when every gated directory goes away; on failure everything but the gated directories is as it was |
| `Clean.Clean` | src/clean.rs:163-428 | the same from the configuration on: on success exactly the directories asked for that pass the gate are gone, on a failed removal no others are; an absent profile and a bad entry are errors that delete nothing |
| `Clean.RepeatedNameCountsTwice` | src/clean.rs:272-280 | a name listed twice would be counted twice: why the names have to be distinct |
| `RemoteUrl.UrlRoundTrip` | src/forge.rs:569-640 | for every scheme, user, host (bracketed IPv6 included), port, padding, slashes and suffix, the URL parses to the lower-cased host, the port and the exact path, if and only if the suffix is printed or the path does not itself end in `.git` |
| `RemoteUrl.UrlNamesRepository` | src/forge.rs:551-640 | and then the reference names the host after aliasing, the path, and `host[:port]` as its authority, the port only for `http` and `https`; the web origin is that scheme and authority or `https`, and trust is given to web remotes and to the two ssh hosts that stand for a forge |
| `RemoteUrl.ScpRoundTrip` | src/forge.rs:644-684 | `user@host:path` gives the same host and path under the same condition |
| `RemoteUrl.ScpNamesRepository` | src/forge.rs:551-684 | and the reference then names the host over `https`, a guess unless the host is one of those two |
| `RemoteUrl.BareScpRoundTrip` | src/forge.rs:644-684 | `host:path` does so if and only if, besides, the path has no `@` and the host is no drive letter |
| `RemoteUrl.NoColonBehindUser` | src/forge.rs:669-683 | without a colon behind the first `@` the remote is not recognised, whatever is in front of it |
| `RemoteUrl.UrlWithoutSlash` | src/forge.rs:644-668 | neither is a URL with a scheme and no slash behind it |
| `RemoteUrl.UrlWithoutHost` | src/forge.rs:569-640 | an authority that is only a user, only a port or nothing is the error for a missing host |
| `RemoteUrl.UrlWithoutPath` | src/forge.rs:569-640 | a path that is only slashes and the suffix is the error for a missing path |
| `RemoteUrl.AtSignInPath` | src/forge.rs:669-683 | a concrete `host:path` that is not recognised because of an `@` in its path |
| `RemoteUrl.SuffixGoes` | src/forge.rs:686-691 | trimming slashes, `.git` and slashes gives nothing longer than the path, and the path itself exactly when the suffix is printed or the path does not end in `.git` |
| `RemoteUrl.SpacesAre` | src/forge.rs:569-640 | white space around a URL is the Unicode property of that name |
| `RemoteUrl.LowerIs` | src/forge.rs:569-640 | lower case changes the ASCII capitals, each to its small letter, and nothing else |
| `RemoteUrl.HostPortOf` | src/forge.rs:578-586 | host and optional digit port are told apart, brackets included |
| `RemoteUrl.AuthorityIs` | src/forge.rs:551-558 | the authority of a reference is its host, with the port where the web has one |
| `RemoteUrl.ParsedIsCanonical` | src/forge.rs:569-640 | whatever the URL: the host is lower-cased and without user, the port numeric, the path non-empty without slashes at its ends |
| `RemoteUrl.WebLinkReadsBack` | src/forge.rs:616-631 | a link generated from a web remote parses to the same parts if and only if the path ends in neither `.git` nor white space |
| `RemoteUrl.WebLinkIsTheSameReference` | src/forge.rs:616-631 | and then to the same reference in every field |

## Left out

- ConfigEdit.SetValue: the source edits the table in place; here the edited table is returned, also the half-edited one after a failure, so aliasing is not captured.
- ConfigRemove.RemoveValue: likewise returns the edited table.
- Clean.ScanWorktreeSafe: the two git questions of the gate are an input, the set of names that pass.
- ConfigRemove.ConfigFile.Set: errors of reading and writing the file itself.
- Clean.Worktree.RemoveDirAll: what a failing removal leaves of a directory is an input.
- Clean.DirSize: entries that cannot be read count as absent.
- Sessions.SortIsStable: the standard library's sort is modelled as a stable insertion sort; that any other stable sort gives the same list is Sessions.SortedIsUnique.
- Detection.DetectAll: what the four backends scanned, and the registry of running sessions, are inputs; of the scans only that of Claude Code and the Codex directory walk are modelled.
- Determinism.DetectionOrderIff: is for one registry; when its names depend on the order of its own files is said by ClaudeScan.NameOrderIff.
- Attribution.ResolvedRows: loading the merged layers, with the defaults it fills in and the files it rejects, is an input function; the text of values is not modelled.
- Framing.HandleConnection: JSON parsing, white-space trimming and dispatch are parameters.
- Placeholders.ExpandPlaceholders: the tilde expansion is a parameter.
- ClaudeScan.ScanImpl: reading a session file, its modification time and the liveness of a process are inputs.
- ClaudeScan.NameOrderIff: the orders are orders of the entries of one session.
- CodexWalk.CodexDayDirs: directories that cannot be read have no entries; instants are integers.
- ParallelExec.RunInDirsParallel: the wrap-around of the counter after 2^64 claims, and what a program does besides its status and output, are not modelled.
- ParallelExec.ResolveJobs: the lookup of the selected profile is an input.
- Framing.ReadRequestLine: the per-line deadline is a read that fails.
- Subscription.StreamSubscription: the connection breaks after a number of notifications that is an input; JSON encoding is not modelled.
- ConnectionCap.RunKeepsCap: the counter is an integer; it does not reach the width of the machine's.
- WhenParser.EvaluateWhen: the keyword predicates behind the atoms are an environment.
- CleanDirs.NormalizedProfileDirs: Windows path prefixes and names that are not Unicode.
- RemoteUrl.ParsedIsCanonical: which forge a host belongs to is not modelled.
- The expansion of agent resume commands, whose brace rule is a different one.
- The Vibe, Codex and OpenCode session readers beyond the Codex directory walk.
- The Windows named-pipe server, which repeats the framing, cap and subscription logic.
- The text syntax of TOML, JSON, globs and shell words; git, forge command lines and the terminal interface.
- Command-line dispatch, printing and shell integration.
- Changes made to the file system by others while a command runs.
