# dirclean cleanup action, modelled in Dafny

dirclean is a small Windows command-line tool. It lists the immediate children of a directory (`--path`). A child is skipped when its full path matches one of the comma-separated regular expressions in `--except`. Otherwise the child is stat'ed again. If its modification time is strictly before a cutoff (`--sub` days before now), the tool does one of two things. With `--dryrun` it logs `<p> will be deleted.`. Without it, it logs `Deleting <p> ...` and runs `cmd /C rmdir /s /q <p>`, but only when the fresh stat says the child is a directory. Plain files are announced but never removed.

This project models that action (the body of `app.Action` in `main.go`):

- `wrappers.dfy`: the `Option` datatype.
- `gostrings.dfy`: Go's `strings.Split` for a one-character separator, with `strings.Join` as its inverse. Empty pieces are kept, and `Split("", ",")` is `[""]`.
- `exclusion.dfy`: the exclusion filter. `FirstMatch` is the reference definition. `MatchesAny` is the inner `for ... break` loop. `Excluded` is the `len(except) > 0` guard plus the loop.
- `dirclean.dfy`: the action itself.
  - The host is a value of type `Host`: directory listing, stat, the removal command and `regexp.MatchString`.
  - The run is recorded as a trace of `Event`s: the log lines and the two side-effecting calls (a stat and a removal), in order.
  - `Run` is the specification function. `Clean`, `VisitEntries` and `VisitEntry` are the step-by-step action, each proved equal to its specification function.
  - `Decision` is the decision table: one row of events per child, given (excluded?, stat ok?, before the cutoff?, dry run?, directory?). An iteration's events are its row, plus the removal command's error line when that command failed.
  - The lemmas state the decision table and the whole-run properties.

Observations, all proved about the code as written:

- An empty `--except` excludes nothing. This holds only because of the length guard: `strings.Split("", ",")` yields one empty pattern, and Go's empty regular expression matches every path (`EmptyExceptExcludesNothing`).
- A non-empty `--except` that ends with a comma contains that empty pattern. Under the same regex behaviour it excludes every child (`TrailingCommaExcludes`).
- The guard on the path flag is `c.GlobalIsSet("path")`. So "the flag was not given" is an error, and that is what the model follows. An explicitly empty `--path ""` passes the guard and reaches the directory listing. `Flags.path` is therefore an `Option`, not a non-empty string.

## Model

| member | source | states |
|---|---|---|
| GoStrings.Split | main.go:96 | `strings.Split(s, ",")`: k separators give k + 1 pieces, and no piece contains the separator |
| GoStrings.JoinSplit | main.go:96 | joining the pieces of a split with the separator gives back the original string |
| GoStrings.SplitJoin | main.go:96 | splitting a join of separator-free pieces gives back the pieces, empty ones included |
| GoStrings.TrailingSepGivesEmptyPiece | main.go:96 | a string ending in the separator splits into pieces whose last one is empty |
| Exclusion.FirstMatch | main.go:99-104 | the index of the first pattern that matches the path: that pattern matches, no earlier one does (an invalid pattern counts as not matching), and none matches when there is no index |
| Exclusion.MatchesAny | main.go:97-105 | the loop reports a match exactly when some pattern matches, and it makes exactly first-match-index + 1 `MatchString` calls (all of them when none matches): it stops at the first match and goes past invalid patterns |
| Exclusion.ExcludedIffSomePatternMatches | main.go:96-106 | a path is excluded if and only if `except` is non-empty and some comma-separated piece of it matches the path |
| Exclusion.EmptyExceptExcludesNothing | main.go:96-98 | `Split("", ",")` is one empty pattern, and without the guard it would be the first match; with the guard an empty `except` excludes nothing |
| Exclusion.TrailingCommaExcludes | main.go:96-104 | a non-empty `except` ending in a comma excludes every path that the empty pattern matches |
| DirClean.JoinPath | main.go:95 | the full path is the directory, then one backslash, then the child's name |
| DirClean.JoinPathInjective | main.go:94-95 | different children of one directory get different full paths |
| DirClean.Run | main.go:70-133 | the action returns nil if and only if the path flag is set and the listing succeeds. Otherwise it returns exit code -1 after a single log line and processes no entry. A successful run starts with the cutoff line, and stat or removal failures do not change its status |
| DirClean.Clean | main.go:70-133 | the step-by-step action produces exactly the trace and status of `Run` |
| DirClean.VisitEntries | main.go:94-130 | the loop visits the listed children once each, in listing order, appending each child's events |
| DirClean.VisitEntry | main.go:95-129 | one iteration appends exactly the events `EntryTrace` gives for that child |
| DirClean.Localize | main.go:94-130 | with distinct names, every event of the loop about a child's path comes from that child's own iteration |
| DirClean.EntryDecision | main.go:107-129 | one iteration's events about its child's path are the child's row of the decision table (excluded?, stat ok?, before cutoff?, dry run?, directory?) |
| DirClean.DecisionTable | main.go:94-130 | over the whole run, the events about a listed child's path are exactly its row of the table. An excluded child gets only `Skip` (no stat, no notice, no removal, whatever its age). A child not before the cutoff gets only its stat. In a dry run an old child gets one "will be deleted" line. Otherwise it gets one "Deleting" line, plus a removal only for a directory |
| DirClean.RemovedIffRemovable | main.go:113-123 | a listed child's path is removed if and only if: dry run is off, the child is not excluded, its fresh stat succeeds, it is strictly older than the cutoff, and it is a directory |
| DirClean.EntryRemovals | main.go:116-123 | one iteration issues one removal, of its own child's path, when the child is removable, and none otherwise |
| DirClean.RemovalFailureLogged | main.go:116-123 | for a removable child the run succeeds and contains the child's removal. If the command fails, its error line comes right after the removal. If it succeeds, the next event is the next child's first one (a skip notice or a stat call), or the trace ends |
| DirClean.RemovalOrder | main.go:94-123 | the removals issued are exactly the removable children's full paths, one each, in listing order; a run that fails with an error removes nothing |
| DirClean.EmptyExceptNeverSkips | main.go:96-98 | with an empty `except` no `Skip` event ever occurs |
| DirClean.DryRunNeverRemoves | main.go:114-117 | a dry run never issues a removal and never logs a "Deleting" line |
| DirClean.DryRunIgnoresRemoval | main.go:114-115 | a dry run's outcome does not depend on the removal command: two dry runs with the same cutoff over an unchanged directory log the same lines |

## Left out

- Flag parsing by `urfave/cli` (main.go:44-69, 135): the flag values are the `Flags` input. `path` and `dryrun` are `None` when not given. The `--sub` flag is not modelled, because it only feeds the cutoff computation.
- The cutoff computation `time.Now().AddDate(0, 0, -sub)` and its `Format` (main.go:90-92): these are clock and calendar library code. The cutoff is an integer input, and the cutoff log line carries that integer.
- DirClean.DryRunIgnoresRemoval: compares only runs with the same cutoff. Two real runs read the clock separately, so their cutoff lines differ, and a child can pass the cutoff between them.
- The rotating log (`lumberjack`, `initRotatingLog`, `dtrace`, main.go:24-42): log lines are events in the trace. The model does not record which lines go only to the standard logger (the flag error, the listing error, the stat error) and which also go to the rotating file.
- `ioutil.ReadDir`, `os.Stat`, running `cmd /C rmdir /s /q` and `regexp.MatchString` are host functions given as parameters (`Host`). The regex engine's semantics are not modelled. Go's `ReadDir` sorts by name; the model takes the listing order as given.
- A stat result depends only on the path. Removing one child does not change the stat of another, since each child is stat'ed at most once and before its own removal.
- DirClean.DecisionTable, DirClean.RemovedIffRemovable: these require the listed names to be distinct, which a directory listing guarantees. Without that, two iterations could act on the same path.
- The build tag and version constant (main.go:1, 18) are build metadata.
