# hours: time-worked estimator, modelled in Dafny

`hours` estimates how long someone has worked on a repository. Every tick it
walks the directory tree, compares each file's modification time with the one
recorded for it in a store (`map[string]FileStats`, persisted as `hours.json`),
credits the time between two samples (clamped to one minute when the gap is
over ten minutes), and merges the per-file session intervals upward so that
every directory, and in the end the root `"."`, carries a cumulative
`TotalWorked`.

This project models the recursive walk `updateStat` and the hours/minutes/seconds
report:

- `stats.dfy` (module `Stats`): the records `FileStats`, `FileStatsDelta`,
  `IgnoreInfo`, the constants (`MaxInt64`, the 600 s idle limit, the 60 s grace
  credit), and the directory snapshot `Entry` (a file with its mtime, or a
  directory with its listing) that stands in for `os.ReadDir`.
- `ignore.dfy` (module `Ignore`): the built-in exclusions (`.git/`, the state
  file) and the rule scan as a loop method `IsIgnored`, proved equal to the
  declarative `Ignored`: some rule matches and no negated rule matches.
- `leaf.dfy` (module `Leaf`): the per-file update `FileUpdate`.
- `merge.dfy` (module `DirMerge`): the accumulator loop `MergeDeltas`, proved
  equal to `Merge`, whose parts `Newest`, `EarliestStart` and `LatestEnd` are
  characterised as a maximum, a sentinel-bounded minimum over fresh entries and
  a 0-bounded maximum over strictly newer entries.
- `walk.dfy` (module `Walk`): the whole pass as functions `WalkDir` /
  `WalkEntries` over the snapshot and the store, the set of paths a pass writes
  (`VisitedDir`), and the frame and per-directory lemmas.
- `walk_facts.dfy` (module `WalkFacts`): consequences for particular shapes of
  tree: the state file, the `.git` directory, unlistable directories,
  sample scenarios.
- `tracker.dfy` (module `Tracker`): class `Tracker` owning the store as a
  mutable `map` field; its recursive method `UpdateStat` updates the map in
  place, entry by entry, and is proved to produce exactly `WalkDir`'s store and
  delta.
- `report.dfy` (module `Report`): Go's truncating `/` and `%` and the h/m/s split.

Glob matching (`path.Match`) is an uninterpreted parameter `glob: (string,
string) -> bool`; a malformed pattern is one for which it answers `false`.
Paths are built as `dir + "/" + name` from the root `"."`.

Some behaviour of the code differs from what one might expect of such a tool;
the model follows the code:

- One might expect the order of ignore rules to matter. In the code a matching
  negated rule forces "not ignored" wherever it sits, and the positive matches
  are OR-ed, so the outcome is order-independent (`Ignore.IgnoredOrderIndependent`).
- One might expect a directory that cannot be listed to report an empty span
  `{0, 0, 0}`. The code reports `{0, MaxInt64, MaxInt64}` and resets the
  directory's recorded mtime to 0, keeping its total (`WalkFacts.UnlistableDir`).
- One might expect `totalWorked` never to decrease. Over unbounded integers that
  holds for directories (`Walk.DirRecord`); a file's total, however, falls when
  its mtime moves backwards (`Leaf.FileUpdate`, last clause), and a directory's
  int64 total can wrap negative in the sentinel case below (see "Left out").

A consequence of the sentinel: a sub-directory with no fresh entry reports
`End = MaxInt64`. If its newest mtime is still later than its parent's record,
the parent's span ends at `MaxInt64` (`DirMerge.SentinelEndPropagates`), and
the parent's total, `subtotal + MaxInt64 - Start` at hours.go:122, overflows
int64 whenever its old total exceeds `Start`.

## Model

| member | source | states |
|---|---|---|
| `Ignore.Contains` | hours.go:39 | `strings.Contains`: true exactly when `sub` occurs at some index of `s` |
| `Ignore.AlwaysExcluded` | hours.go:39 | the fixed skip: true exactly when `.git/` occurs somewhere in the path or the path is the directory's own `hours.json` |
| `Ignore.Excluded` | hours.go:39-54 | skipped exactly when the fixed skip applies or some rule matches and no negated rule does; with no rules only the fixed skip remains |
| `Ignore.IsIgnored` | hours.go:42-54 | the rule loop (OR of matches, stop with false at the first matching negated rule) returns true exactly when some rule matches and no negated rule matches |
| `Ignore.NegatedOnlyKeeps` | hours.go:42-54 | a path matched only by negated rules, in particular any path under an empty rule list, is not ignored |
| `Ignore.IgnoredOrderIndependent` | hours.go:42-54 | any reordering of the rule list gives the same decision |
| `Stats.Lookup` | hours.go:69-70 | the comma-ok read: `Some(record)` exactly when the key is present, holding the stored record |
| `Stats.StatsOr0` | hours.go:98-104 | the stored record when the key is present, otherwise `{0, 0}` |
| `Walk.ChildPath` | hours.go:38 | `dir + "/" + name` (also the path of the recursive call at hours.go:89): strictly longer than `dir` and starting with it |
| `Leaf.FileUpdate` | hours.go:63-86 | first sighting records `{mtime, 0}` and reports `{mtime, 0, 0}`; a gap of at most 600 s adds the gap and starts the session at the old total; a longer gap adds exactly 60 and starts at `mtime - 60`; the end is the new total; credit is at most 600; the total falls exactly when the mtime went backwards |
| `DirMerge.Newest` | hours.go:93-109 | the newest mtime is the maximum of 0 and the entries' `NewestMod` |
| `DirMerge.EarliestStart` | hours.go:94-112 | the start is the minimum of `MaxInt64` and the starts of entries with `NewestMod >= LastModified` |
| `DirMerge.LatestEnd` | hours.go:95-115 | the raw end is the maximum of 0 and the ends of entries with `NewestMod > LastModified` |
| `DirMerge.Merge` | hours.go:118-120 | the directory's end is raised to its start when below it: `End >= Start` and `End` is one of the two |
| `DirMerge.MergeDeltas` | hours.go:93-120 | the accumulator loop over the collected deltas computes `Merge` |
| `DirMerge.NoFreshEntry` | hours.go:94-120 | with no entry at or after the directory's mtime (an empty listing included), `Start = End = MaxInt64` |
| `DirMerge.BoundaryEntry` | hours.go:110-115 | an entry exactly at the directory's mtime can lower the start but cannot raise the end |
| `DirMerge.MergeOrderIndependent` | hours.go:106-120 | the merged delta does not depend on the order of the entries |
| `DirMerge.BoundsCarryOver` | hours.go:106-116 | for two deltas lists with the same elements, the first's newest mtime and raw end are at most the second's and its start at least the second's; applied both ways, they are equal |
| `DirMerge.SentinelEndPropagates` | hours.go:113-115 | a strictly newer entry whose end is `MaxInt64` makes the directory's end `MaxInt64` |
| `Walk.WalkDir` | hours.go:29-124 | the entry loop, then the directory's record {newest mtime, old total + End - Start} read after the loop, and the merged delta: the delta's span is never negative, its newest mtime is at least 0, and the directory's record holds that newest mtime |
| `Walk.WalkEntries` | hours.go:37-91 | the entries in listing order, each skipped, recorded as a file or walked as a directory; at most one delta is collected per entry |
| `Walk.StepExcluded` | hours.go:39-54 | one step of `WalkEntries` for a skipped entry, used by `UpdateStat`'s loop invariant |
| `Walk.StepFile` | hours.go:56-86 | one step of `WalkEntries` for a file entry, used by `UpdateStat`'s loop invariant |
| `Walk.StepDir` | hours.go:88-90 | one step of `WalkEntries` for a directory entry, used by `UpdateStat`'s loop invariant; the sub-listing is smaller |
| `Walk.VisitedBelow` | hours.go:38 | every path written below `dir` starts with `dir + "/"` |
| `Walk.StepKeepsOtherKeys` | hours.go:37-91 | handling one entry leaves every key other than the entry's own path and the paths below it as it was |
| `Walk.WalkDirFrame` | hours.go:29-124 | a pass only adds keys, exactly the visited paths, and every other key keeps its record |
| `Walk.WalkEntriesFrame` | hours.go:37-91 | the entry loop only adds the visited paths and leaves every other record alone |
| `Walk.DirRecord` | hours.go:93-124 | the directory's delta is `Merge` of its entries' deltas against its old mtime; `End >= Start`; its new mtime is the maximum of 0 and the entries' newest; its total becomes old + (`End - Start`) and never decreases |
| `Walk.VisitedNotExcluded` | hours.go:39-54 | no written path contains `.git/` or is dropped by the rules; in particular nothing inside `.git` is ever written |
| `WalkFacts.ChildNotStateFile` | hours.go:38-39 | a slash-free name other than `hours.json` gives a path not ending in `/hours.json` |
| `WalkFacts.StateFileNeverVisited` | hours.go:38-41 | for listings whose names contain no `/`, no pass writes a path ending in `/hours.json`, in any directory |
| `WalkFacts.OneDeltaPerKeptEntry` | hours.go:37-91 | one delta per entry that passes the filter, in listing order, a file's delta carrying its mtime |
| `WalkFacts.UnlistableDir` | hours.go:30-33 | a directory with an empty listing keeps its total, gets mtime 0 and reports `{0, MaxInt64, MaxInt64}` |
| `WalkFacts.ContainsExtend` | hours.go:39 | appending to a path keeps a `.git/` occurrence |
| `WalkFacts.UnderGitNothingVisited` | hours.go:39-41 | below a path containing `.git/`, every entry is skipped: no write, no delta |
| `WalkFacts.GitDirKept` | hours.go:39 | `./.git` passes the built-in exclusions |
| `WalkFacts.GitPathNotUnderSibling` | hours.go:38 | a root entry not named `.git` has a path that is neither `./.git` nor a prefix of it ending in `/` |
| `WalkFacts.SiblingsKeepGitKey` | hours.go:37-91 | root entries not named `.git` leave the store's `./.git` key as they found it |
| `WalkFacts.GitStep` | hours.go:39-41 | handling the root entry `.git` skips all its contents and rewrites its record with mtime 0 and the total it had |
| `WalkFacts.GitDirRecorded` | hours.go:39-41 | in any root listing with one `.git` directory not dropped by a rule, `.git` itself is walked and recorded with mtime 0 and unchanged total |
| `WalkFacts.OneFileSample` | hours.go:56-86 | a pass over a one-file repository records the file's `FileUpdate`, whether or not the store knew it |
| `WalkFacts.FirstSightingRecorded` | hours.go:65-69 | a file the store has never seen is recorded as `{mtime, 0}` |
| `WalkFacts.ShortGapCredited` | hours.go:71-81 | `{T, 100}` sampled again at `T + 30` becomes `{T + 30, 130}` |
| `WalkFacts.IdleGapClamped` | hours.go:76-81 | `{T, 100}` sampled again at `T + 900` becomes `{T + 900, 160}` |
| `Tracker.Tracker.constructor` | hours.go:147-151 | the tracker starts from the loaded store and rule list |
| `Tracker.Tracker.UpdateStat` | hours.go:29-125 | the in-place walk leaves the map and returns the delta exactly as `WalkDir` prescribes |
| `Tracker.Tracker.UpdateAndSave` | hours.go:127-128 | one tick is a pass from the root `"."` |
| `Report.GoDiv` | hours.go:191-193 | Go's `/` rounds toward zero |
| `Report.GoMod` | hours.go:191-193 | Go's `%` is the remainder of `GoDiv`, with the sign of the dividend |
| `Report.Split` | hours.go:191-193 | `h*3600 + m*60 + s == t`; for `t >= 0`, `0 <= m < 60` and `0 <= s < 60` |
| `Report.TimeReport` | hours.go:189-196 | a report exists exactly when the root has a record, and its parts add up to the root's total; for a non-negative total the hours are non-negative and minutes and seconds lie in [0, 60), for a negative one every part is non-positive and above -60 for minutes and seconds |

## Left out

- The ticker goroutine, the quit channel and the interactive menu (hours.go:160-199): concurrency and console I/O. Only the time split of option 2 is modelled.
- `jsonRead` and the JSON encoding and writing of the store (hours.go:127-144): file I/O and the JSON library; the store is a Dafny map handed to the constructor.
- The copy loop at hours.go:153-158: it rewrites every record with itself.
- `os.ReadDir`, `file.Info()` and `ModTime()`: replaced by the immutable snapshot `Entry`. A listing error is an empty (or partial) listing. The `file.Info()` error path (hours.go:58-63) is not modelled: the code would dereference a nil result there.
- `path.Match`: glob semantics are not modelled; the matcher is a parameter.
- int64 wrap-around: values are unbounded integers. At hours.go:122 the sentinel case `subtotal + MaxInt64 - MaxInt64` wraps and cancels in Go, so the result agrees; sums that overflow int64 for other reasons are not modelled.
- Walk.DirRecord: "the total never decreases" is a property of the unbounded model. When a span ends at `MaxInt64` (see `DirMerge.SentinelEndPropagates`) and the directory's old total exceeds the span's start, Go's int64 sum at hours.go:122 wraps negative and the recorded total falls; the model records the unwrapped value.
- Printing of listing errors (hours.go:31-32, 60): logging only.
