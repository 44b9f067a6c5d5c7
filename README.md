# wenv file-selection core in Dafny

wenv runs a command with environment variables taken from `.env`-style
files. This project models how it picks those files and turns them into
variables, and proves properties of that model:

- **RecencyStore** (`memory.dfy`, src/memory.rs): the per-directory memory.
  This is a `Memory` class whose `entries` map sends a directory key to a
  list of file paths. `Record` is the source's reverse loop: remove each
  passed file, re-insert it at the front, then truncate. It is proved equal
  to a reference definition: the passed files, with repeats collapsed, come
  first, then the previously stored files that were not passed, cut at the
  bound. `Get` is the lookup by canonical path.
- **Env** (`env.dfy`, src/env.rs): the `KEY=value` line parser, which trims,
  skips blank and comment lines, splits at the first `=` and strips quotes.
  It also holds the loader `LoadEnvFiles`, whose nested loops fill the map so
  that later assignments win and the first unreadable file is an error, and
  `FilterExisting`.
- **Configuration** (`config.dfy`, src/config.rs): the default memory
  settings and `@alias` expansion, which is single-level and strips one `@`.
- **Commands** (`main.dfy`, src/main.rs): `cmd_run` and `cmd_ls`.
  - `cmd_run` decides whether memory is on (the local setting overrides the
    global one) and which file list is used: recalled, alias-expanded or
    verbatim.
  - Its error checks come in a fixed order.
  - It records the list only after a successful load.
  - `CmdRun` is a method that uses the `Memory` class and the
    `LoadEnvFiles` method. It is proved equal to the decision functions.
- **Watch** (`watch.dfy`, src/watch.rs): the event loop of `watch_and_run`.
  - It is a step function over a finite trace of messages, with a 200 ms
    debounce.
  - A process log shows that at most one child is ever live.
  - `WatchAndRun` is the imperative loop, proved equal to the step function.

The filesystem is passed in as functions:
- `canon`: canonicalise a path, or fail;
- `pathExists`: whether a path exists;
- `read`: a file's lines, or a read failure.

Time is an integer count of milliseconds. The persisted memory file is an
optional store: `None` when it is missing or unreadable.

## Model

| member | source | states |
|---|---|---|
| Configuration.DefaultMemoryConfig | src/config.rs:33-48 | the default global memory setting is enabled with at most 10 entries |
| Configuration.DefaultConfig | src/config.rs:6-10 | the default configuration carries the default memory setting |
| Configuration.DefaultLocalConfig | src/config.rs:20-31 | the default local configuration has no memory override and an empty alias table |
| Configuration.StripAt | src/config.rs:82 | a token yields a name exactly when it starts with '@', and the name is the token without that one '@' |
| Configuration.ExpandToken | src/config.rs:81-90 | definition, no contract: the expansion of one token, whose properties ExpandPlainToken, ExpandDefinedAlias and ExpandUndefinedAlias state |
| Configuration.ExpandAliases | src/config.rs:78-92 | an empty input expands to nothing; every output path is an input token or part of some alias's list |
| Configuration.ExpandAliasesAppend | src/config.rs:79-91 | expansion of a concatenation is the concatenation of the expansions (a flat map in input order) |
| Configuration.ExpandPlainToken | src/config.rs:87-89 | a token not starting with '@' expands to itself alone |
| Configuration.ExpandDefinedAlias | src/config.rs:82-85 | `@name` with a defined alias becomes that alias's list, in order |
| Configuration.ExpandUndefinedAlias | src/config.rs:86 | `@name` with no alias is kept verbatim, '@' included |
| Configuration.ExpandWithoutAliasTokens | src/config.rs:78-92 | a list with no '@' tokens is returned unchanged |
| Configuration.ExpandWithEmptyTable | src/config.rs:78-92 | with an empty alias table, expansion is the identity |
| Configuration.ExpandSingleLevel | src/config.rs:82-85 | an alias whose list is another `@alias` is not expanded again |
| Configuration.ExpandDoubleAt | src/config.rs:82-86 | `@@x` looks up the alias `@x`, and is otherwise kept verbatim |
| Env.StripStart | src/env.rs:12 | the result is a suffix, everything removed is in the stripped set, and the result does not start with one |
| Env.StripEnd | src/env.rs:12 | the result is a prefix, everything removed is in the stripped set, and the result does not end with one |
| Env.Trim | src/env.rs:12 | the result is no longer than the input and neither starts nor ends with whitespace |
| Env.TrimMatches | src/env.rs:19 | definition, no contract: `str::trim_matches` of one character, stripping both ends; StripStartOne, StripEndOne and StripUnchanged state its effect, and UnquoteDoubleThenSingle and UnquoteKeepsInnerDoubleQuotes its use |
| Env.Unquote | src/env.rs:19 | the result is no longer than the input and neither starts nor ends with a single quote |
| Env.SplitOnce | src/env.rs:17 | there is no split exactly when the separator is absent; otherwise the line is left part, separator, right part, and the left part has no separator |
| Env.SplitOnceUnique | src/env.rs:17 | the split is at the first separator: any decomposition whose left part has no separator is the one returned |
| Env.ParseLine | src/env.rs:11-21 | a line assigns exactly when it is non-empty after trimming, does not start with '#', and contains '=' |
| Env.ParseLineSplitsAtFirstEquals | src/env.rs:17-19 | the key is the trimmed text before the first '='; the value is the rest, trimmed and unquoted, so it may contain '=' |
| Env.ParseLineSkipsBlankAndComment | src/env.rs:12-15 | blank lines and lines starting with '#' after trimming assign nothing |
| Env.ParseLineNeedsEquals | src/env.rs:17 | a line without '=' assigns nothing |
| Env.ParseLineEmptyKey | src/env.rs:17-20 | a line that trims to `=value` (value without surrounding blanks or quotes) assigns value to the empty key |
| Env.StripUnchanged | src/env.rs:12 | text that neither starts nor ends with a stripped character is unchanged by stripping |
| Env.StripStartOne | src/env.rs:19 | one leading stripped character is removed |
| Env.StripEndOne | src/env.rs:19 | one trailing stripped character is removed |
| Env.UnquoteDoubleThenSingle | src/env.rs:19 | double quotes are stripped before single quotes, so `"'x'"` gives `x` |
| Env.UnquoteKeepsInnerDoubleQuotes | src/env.rs:19 | nothing is stripped again afterwards, so `'"x"'` gives `"x"` |
| Env.Parsed | src/env.rs:11 | each line gives exactly one (possibly empty) assignment |
| Env.Assign | src/env.rs:20 | definition, no contract: `vars.insert` of one parsed line, or nothing for a skipped line; ApplyAllUnassigned and ApplyAllLastWins state its effect on every key |
| Env.ApplyLines | src/env.rs:11-21 | definition, no contract: the inner loop over one file's lines; ApplyLinesAppend, ApplyLinesUnassigned and LastAssignmentWins state its properties |
| Env.LoadSpec | src/env.rs:5-26 | a failed load names a listed file that cannot be read |
| Env.LoadFrom | src/env.rs:8-25 | a failed load names a listed file that cannot be read; LoadReadableIsConcatenation, LoadFailsAtFirstUnreadable and LoadOkOnlyIfReadable fix its value in both cases |
| Env.LoadEnvFiles | src/env.rs:5-26 | the nested loops give exactly the reference load: assignments in file and line order, or the error of the first unreadable file |
| Env.ApplyAllAppend | src/env.rs:8-23 | applying two runs of assignments is applying the first, then the second |
| Env.ParsedAppend | src/env.rs:11 | parsing the lines of two files is parsing each in turn |
| Env.ApplyLinesAppend | src/env.rs:8-23 | loading the lines of one file and then another is loading their concatenation |
| Env.ApplyAllUnassigned | src/env.rs:20 | a key no assignment sets keeps its presence and value |
| Env.ApplyAllLastWins | src/env.rs:20 | a key takes the value of its last assignment |
| Env.ApplyLinesUnassigned | src/env.rs:11-21 | a key no line assigns keeps its presence and value |
| Env.LastAssignmentWins | src/env.rs:8-21 | a later assignment of a key overrides every earlier one |
| Env.LoadReadableIsConcatenation | src/env.rs:8-25 | when every file reads, the result is the lines of all files, in list order, applied in turn, so later files override earlier ones |
| Env.LoadFailsAtFirstUnreadable | src/env.rs:9 | the first unreadable file gives an error naming it, and no partial map |
| Env.LoadOkOnlyIfReadable | src/env.rs:9 | a successful load means every file was readable |
| Env.FilterExisting | src/env.rs:28-34 | the result keeps only existing paths, with every existing path as often as in the input |
| Env.FilterExistingAppend | src/env.rs:28-34 | filtering keeps order: filtering a concatenation concatenates the filtered parts |
| Env.FilterExistingAllExist | src/env.rs:28-34 | a list of existing paths is kept whole |
| RecencyStore.Truncate | src/memory.rs:50 | the result is the first `n` entries, or all of them when fewer |
| RecencyStore.Without | src/memory.rs:46 | definition, no contract: `Vec::retain` removing one path; WithoutMembers, WithoutAppend and WithoutAbsent state its properties |
| RecencyStore.KeyFor | src/memory.rs:41-42 | definition, no contract: the canonical path, or the raw path when canonicalisation fails; RawKeyUnreachable and LookupAfterRecord state its effect |
| RecencyStore.MoveToFront | src/memory.rs:45-48 | definition, no contract: the loop as written, which MoveToFrontIsPromoted proves equal to the reference |
| RecencyStore.LoadStore | src/memory.rs:15-24 | definition, no contract: the snapshot, or an empty store without one |
| RecencyStore.Lookup | src/memory.rs:53-57 | nothing is found when canonicalisation fails; otherwise the list stored under the canonical path |
| RecencyStore.Recorded | src/memory.rs:40-51 | the keys are the old keys plus the computed key, the other entries are unchanged, and the computed entry is within the bound |
| RecencyStore.Memory.Load | src/memory.rs:15-24 | the store is the snapshot, or empty without one |
| RecencyStore.Memory.Get | src/memory.rs:53-57 | reading the store leaves it alone and returns the canonical lookup |
| RecencyStore.Memory.Record | src/memory.rs:40-51 | the reverse retain-and-insert loop with truncation gives the reference `Recorded` store |
| RecencyStore.MoveToFrontIsPromoted | src/memory.rs:45-48 | the loop as written equals: the passed files, repeats collapsed, followed by the stored files that were not passed |
| RecencyStore.WithoutMembers | src/memory.rs:46 | `retain` removes exactly the copies of one path |
| RecencyStore.UnlistedMembers | src/memory.rs:45-47 | the kept stored paths are exactly those not among the passed files |
| RecencyStore.DedupMembers | src/memory.rs:45-48 | the front holds exactly the passed files |
| RecencyStore.DedupNoDup | src/memory.rs:45-48 | the front holds no path twice |
| RecencyStore.DedupOfNoDup | src/memory.rs:45-48 | passed files without repeats come in their given order |
| RecencyStore.DedupSnoc | src/memory.rs:45-48 | appending a path to the passed files adds it at the end of the collapsed list exactly when it did not occur before, so the first copy of each path is kept and the given order is followed |
| RecencyStore.UnlistedNoneListed | src/memory.rs:46-47 | stored paths untouched by the passed files keep their order |
| RecencyStore.UnlistedAllListed | src/memory.rs:46-47 | when every stored path is passed again, no old copy remains |
| RecencyStore.UnlistedNoDup | src/memory.rs:46-47 | keeping part of a repeat-free list keeps it repeat-free |
| RecencyStore.RecordedEntry | src/memory.rs:40-51 | the entry is the passed files (in order, repeats collapsed) followed by the old entry without them, cut at the bound; its length is the bound or the whole of that list, whichever is smaller, so old paths are kept while there is room; bound 0 leaves it empty; every path was passed or stored; a repeat-free entry stays repeat-free |
| RecencyStore.RecordEntry | src/memory.rs:45-50 | definition, no contract: the entry step of `record`, promote then truncate; RecordedEntry states its contents and RecordEntryIdempotent that repeating it changes nothing |
| RecencyStore.RecordEntryIdempotent | src/memory.rs:45-50 | recording the same files twice with the same bound gives the same entry as once |
| RecencyStore.RecordIdempotent | src/memory.rs:40-51 | recording the same files twice gives the same store as once |
| RecencyStore.RecordCreatesEntry | src/memory.rs:43 | a missing entry is created, empty when no files are passed |
| RecencyStore.LookupAfterRecord | src/memory.rs:40-57 | after recording, any directory with the same canonical path finds the recorded entry |
| RecencyStore.RawKeyUnreachable | src/memory.rs:41-42 | a directory that does not canonicalise is stored under its raw path, which lookup never finds |
| RecencyStore.LookupOtherUnchanged | src/memory.rs:40-57 | lookups of other directories are unchanged by recording |
| RecencyStore.RecencyOrderExample | src/memory.rs:45-48 | recording [a,b] then [c] gives [c,a,b] |
| RecencyStore.RecencyDedupExample | src/memory.rs:45-48 | recording [a] twice gives [a] |
| RecencyStore.RecencyBoundExample | src/memory.rs:50 | recording [a], [b], [c] with bound 2 gives [c,b] |
| Commands.MemoryEnabled | src/main.rs:54-56 | the local memory setting when present, otherwise the global one |
| Commands.Recall | src/main.rs:59-62 | nothing without a directory or an entry; otherwise the remembered list filtered by existence, keeping each existing path as often as remembered |
| Commands.ResolveEnvFiles | src/main.rs:58-67 | with no files given and memory on: exactly the remembered files of the current directory that exist, each as often as remembered, and nothing without a directory or an entry; otherwise the given tokens, alias-expanded exactly when a local configuration exists |
| Commands.RunDecision | src/main.rs:69-85 | no files exactly when the list is empty; no command exactly when the list is non-empty and the command empty; a load failure exactly when both are present and loading fails, with that error; otherwise the command runs with the loaded variables |
| Commands.SnapshotAfterRun | src/main.rs:87-93 | the snapshot is unchanged unless the run reaches the command with memory on, a known directory and a successful save |
| Commands.CmdRun | src/main.rs:54-95 | the method's outcome and persisted store are those of the decision functions |
| Commands.CmdLs | src/main.rs:30-46 | it fails exactly without a current directory; otherwise it lists the remembered entry or reports that none exists |
| Commands.LsExitCode | src/main.rs:31-45 | definition, no contract: failure for a missing directory, success otherwise; LsFailsOnlyWithoutCwd states it as an if-and-only-if |
| Commands.LsFailsOnlyWithoutCwd | src/main.rs:30-46 | the exit status is failure exactly when the current directory is unknown |
| Commands.ExplicitFilesIgnoreMemory | src/main.rs:58-67 | given files never depend on the store or the filesystem, so remembered and given files are never mixed |
| Commands.EmptyFileListFailsFirst | src/main.rs:69-72 | an empty list fails whatever the command, and nothing is recorded |
| Commands.NoFilesAndMemoryOffFails | src/main.rs:58-72 | with no files given and memory off, a run fails for want of files |
| Commands.EmptyCommandFailsSecond | src/main.rs:74-77 | an empty command fails only after the list is known to be non-empty, and nothing is recorded |
| Commands.LoadFailureRecordsNothing | src/main.rs:79-85 | a failed load ends the run and nothing is recorded |
| Commands.RecordingPolicy | src/main.rs:87-93 | the store changes only after a successful load with memory on and a known directory, and the entry is within the global bound |
| Commands.DefaultsRememberTen | src/main.rs:54-56 | under default settings memory is on and keeps at most ten files |
| Commands.RememberedNextRun | src/main.rs:58-93 | after a successful run with given files, a later run there without files starts with those files (repeats collapsed, within the bound) while they exist |
| Watch.Elapsed | src/watch.rs:47 | time since the last run, zero when the clock reads earlier |
| Watch.IsTrigger | src/watch.rs:45 | definition, no contract: only Modify and Create events count; NonTriggerIgnored and AcceptedEventRestarts state the effect |
| Watch.Stop | src/watch.rs:51-54 | the child slot ends empty and a live child is killed, then reaped |
| Watch.Unwatchable | src/watch.rs:32-36 | the warnings name exactly the files that cannot be watched |
| Watch.Step | src/watch.rs:43-72 | the loop exits exactly on a channel error, with status 1 and no child; an event that is not a modification or creation, or within 200 ms of the last run, changes nothing; an accepted event restarts; the process log only grows |
| Watch.Restart | src/watch.rs:48-58 | the last run becomes the event time and is logged; the old child is killed and reaped before a new one is spawned, and the slot holds the new child exactly when the reload succeeded |
| Watch.Start | src/watch.rs:14-18 | a failed first load exits with status 1 with no child and an empty log; otherwise child 0 is spawned with the loaded variables; no restart yet |
| Watch.Supervise | src/watch.rs:13-73 | definition, no contract: the loop from its start over a trace; OneChildAtATime, RestartsDebounced and FailedStartNeverSpawns state its properties |
| Watch.Run | src/watch.rs:42-73 | definition, no contract: the loop over the trace, stopping at the exit; ExitedStaysExited, ExitsOnlyOnChannelError, RunKeepsInvariant and RunKeepsPace state its properties |
| Watch.WatchAndRun | src/watch.rs:13-73 | the loop's warnings and final state are those of the step function over the trace, and an initial load failure gives no warnings |
| Watch.FailedStartNeverSpawns | src/watch.rs:14-16 | a failed initial load exits with status 1 and spawns nothing |
| Watch.NonTriggerIgnored | src/watch.rs:45 | events other than modify and create leave the state unchanged |
| Watch.DebouncedEventDropped | src/watch.rs:47 | events at most 200 ms after the last restart leave the state unchanged |
| Watch.AcceptedEventRestarts | src/watch.rs:47-58 | an accepted event sets the last run, kills and reaps the old child before spawning the new one, and leaves the slot empty when reload fails |
| Watch.ChannelErrorExits | src/watch.rs:64-70 | a channel error kills and reaps the child and exits with status 1 |
| Watch.ExitedStaysExited | src/watch.rs:70 | after the exit nothing more is processed |
| Watch.ExitsOnlyOnChannelError | src/watch.rs:42-73 | a running loop ends only on a channel error, always with status 1 |
| Watch.StepKeepsInvariant | src/watch.rs:43-72 | each message keeps the slot equal to the live set, and every spawn alone |
| Watch.RestartKeepsInvariant | src/watch.rs:48-58 | a restart empties the slot before spawning, so the spawned child is the only live one |
| Watch.OneChildAtATime | src/watch.rs:18-57 | every spawn happens with no live child, at most one child is live, and none after an exit |
| Watch.StepTiming | src/watch.rs:47-48 | the last run changes only on an accepted restart, to a time more than 200 ms later |
| Watch.RestartsDebounced | src/watch.rs:40-48 | the first restart is more than 200 ms after the start, and any two restarts are more than 200 ms apart |
| Watch.SpacedApart | src/watch.rs:47-48 | restarts k apart are more than k debounce windows apart |
| Watch.BurstRestartsOnce | src/watch.rs:45-48 | modifications at 250 ms and 400 ms restart once, at 250 ms |
| Watch.EarlyAndAccessIgnored | src/watch.rs:40-47 | a modification at 200 ms and an access event change nothing |

## Left out

- The TOML loading and saving of the memory file and the configurations.
  - Loading is an optional snapshot (`None` for a missing or unreadable file).
  - Saving is a success flag. A failed save leaves the snapshot as it was.
  - The serde library is outside the model.
- `Path::canonicalize`, `Path::exists` and `fs::read_to_string` are function parameters.
- Env.Trim uses the ASCII whitespace characters (space, tab, line feed, carriage return, vertical tab, form feed) rather than Rust's Unicode `White_Space` set.
- `str::lines` is not modelled: a readable file is given as its lines already split, so a trailing `\r` is handled by the trim.
- src/run.rs (executing the command, and the child's exit code) is not part of this model: a successful run ends in `Exec` with the command and the variables.
- src/cli.rs (argument parsing) is not part of this model; the parsed arguments are the `Cli` value.
- Watch.WatchAndRun: the notify watcher, the channel, `Instant` and the coloured output become a finite message trace with integer times, and the loop's run is finite.
- Watch.WatchAndRun: spawning is assumed to succeed. The source panics on an empty command or a failed spawn, and that is not modelled.
- Watch.WatchAndRun: creating the watcher is assumed to succeed. The source spawns the first child at src/watch.rs:18 and then panics at src/watch.rs:30 if the watcher cannot be created; that child is not killed and keeps running. Watch.OneChildAtATime's "no child live after an exit" covers only the exits the model has: a failed first load and a channel error.
- src/watch.rs is not declared as a module in src/main.rs, so it is unreachable in this snapshot. It is modelled as written.
- `usize` bounds are unbounded `nat`.
- In src/main.rs:22 the local configuration is loaded only when the current directory is known. The model also allows a local configuration without one, which does not change any decision.
- Commands.CmdRun: both `Memory::load` calls read the same snapshot; a concurrent writer between them is not modelled.
