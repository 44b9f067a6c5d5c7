/**
 * src/main.rs: which env files a run uses, the order of its error checks,
 * and when the directory memory is recorded; and the `ls` subcommand.
 * The filesystem calls (canonicalise, exists, read) come in as `Fs`, the
 * persisted memory snapshot as an optional store, and whether saving it
 * succeeds as a flag. Executing the command (src/run.rs) is not part of
 * this model: a successful run ends in `Exec` with the command and variables.
 */
module Commands {
  import opened Wrappers
  import opened Configuration
  import opened Env
  import opened RecencyStore

  /** The filesystem as the commands see it. */
  datatype Fs = Fs(canon: Canon, pathExists: string -> bool, read: Reader)

  /** The parsed command line: env-file tokens and the command with its arguments. */
  datatype Cli = Cli(envFiles: seq<string>, command: seq<string>)

  /** How `cmd_run` ends. Every outcome but `Exec` exits with failure. */
  datatype RunOutcome =
    | NoEnvFiles
    | NoCommand
    | LoadFailed(error: LoadError)
    | Exec(command: seq<string>, vars: Vars)

  /** How `cmd_ls` ends: no cwd is a failure, the other two succeed. */
  datatype LsOutcome = NoCwd | Listed(files: seq<string>) | NothingRemembered

  /** Whether memory is used: the local setting when present, otherwise the global one. */
  function MemoryEnabled(config: Config, local: Option<LocalConfig>): (r: bool)
    ensures local.Some? && local.value.memory.enabled.Some? ==> r == local.value.memory.enabled.value
    ensures local.None? || local.value.memory.enabled.None? ==> r == config.memory.enabled
  {
    match local
    case Some(l) => (match l.memory.enabled case Some(b) => b case None => config.memory.enabled)
    case None => config.memory.enabled
  }

  /** The remembered files for `cwd` that still exist; empty without a cwd or an entry. */
  function Recall(stored: Store, cwd: Option<string>, fs: Fs): (r: seq<string>)
    ensures cwd.None? || Lookup(stored, cwd.value, fs.canon).None? ==> r == []
    ensures cwd.Some? && Lookup(stored, cwd.value, fs.canon).Some? ==>
      && r == FilterExisting(Lookup(stored, cwd.value, fs.canon).value, fs.pathExists)
      && forall f :: multiset(r)[f] ==
           if fs.pathExists(f) then multiset(Lookup(stored, cwd.value, fs.canon).value)[f] else 0
  {
    match cwd
    case None => []
    case Some(dir) =>
      match Lookup(stored, dir, fs.canon)
      case None => []
      case Some(files) => FilterExisting(files, fs.pathExists)
  }

  /**
   * The file list of a run (src/main.rs:58-67): recalled from memory when no
   * files are given and memory is on, otherwise the given tokens, alias
   * expanded when a local configuration exists. The two are never mixed.
   */
  function ResolveEnvFiles(cliFiles: seq<string>, memoryEnabled: bool, local: Option<LocalConfig>,
                           cwd: Option<string>, stored: Store, fs: Fs): (r: seq<string>)
    ensures cliFiles == [] && memoryEnabled ==>
      forall f :: f in r ==>
        fs.pathExists(f) && cwd.Some? && Lookup(stored, cwd.value, fs.canon).Some? &&
        f in Lookup(stored, cwd.value, fs.canon).value
    ensures cliFiles == [] && memoryEnabled && cwd.Some? && Lookup(stored, cwd.value, fs.canon).Some? ==>
      forall f :: multiset(r)[f] ==
        if fs.pathExists(f) then multiset(Lookup(stored, cwd.value, fs.canon).value)[f] else 0
    ensures cliFiles == [] && memoryEnabled && (cwd.None? || Lookup(stored, cwd.value, fs.canon).None?) ==> r == []
    ensures cliFiles != [] || !memoryEnabled ==>
      r == if local.Some? then ExpandAliases(local.value, cliFiles) else cliFiles
  {
    if cliFiles == [] && memoryEnabled then
      var recalled := Recall(stored, cwd, fs);
      assert cwd.Some? && Lookup(stored, cwd.value, fs.canon).Some? ==>
        multiset(recalled) <= multiset(Lookup(stored, cwd.value, fs.canon).value);
      recalled
    else if local.Some? then ExpandAliases(local.value, cliFiles)
    else cliFiles
  }

  /** The decision of `cmd_run` (src/main.rs:54-95), on the store `Memory::load` gives. */
  function RunDecision(cli: Cli, config: Config, local: Option<LocalConfig>, cwd: Option<string>,
                       stored: Store, fs: Fs): (r: RunOutcome)
    ensures var files := ResolveEnvFiles(cli.envFiles, MemoryEnabled(config, local), local, cwd, stored, fs);
      && (r.NoEnvFiles? <==> files == [])
      && (r.NoCommand? <==> files != [] && cli.command == [])
      && (r.LoadFailed? <==> files != [] && cli.command != [] && LoadSpec(files, fs.read).Err?)
      && (r.LoadFailed? ==> LoadSpec(files, fs.read) == Err(r.error))
      && (r.Exec? ==> r.command == cli.command && LoadSpec(files, fs.read) == Ok(r.vars))
  {
    var files := ResolveEnvFiles(cli.envFiles, MemoryEnabled(config, local), local, cwd, stored, fs);
    if files == [] then NoEnvFiles
    else if cli.command == [] then NoCommand
    else match LoadSpec(files, fs.read)
      case Err(e) => LoadFailed(e)
      case Ok(vars) => Exec(cli.command, vars)
  }

  /**
   * The persisted snapshot after `cmd_run`: rewritten with the resolved files
   * recorded under the global bound only when the run reaches the command
   * with memory on and a cwd, and only when the save succeeds.
   */
  function SnapshotAfterRun(cli: Cli, config: Config, local: Option<LocalConfig>, cwd: Option<string>,
                            snapshot: Option<Store>, fs: Fs, saveOk: bool): (r: Option<Store>)
    ensures !saveOk || !MemoryEnabled(config, local) || cwd.None? ==> r == snapshot
    ensures !RunDecision(cli, config, local, cwd, LoadStore(snapshot), fs).Exec? ==> r == snapshot
  {
    var stored := LoadStore(snapshot);
    var enabled := MemoryEnabled(config, local);
    if RunDecision(cli, config, local, cwd, stored, fs).Exec? && enabled && cwd.Some? && saveOk then
      var files := ResolveEnvFiles(cli.envFiles, enabled, local, cwd, stored, fs);
      Some(Recorded(stored, cwd.value, files, config.memory.maxEntries, fs.canon))
    else snapshot
  }

  /** `cmd_run`: resolve, check, load, record, and hand the command over. */
  method CmdRun(cli: Cli, config: Config, local: Option<LocalConfig>, cwd: Option<string>,
                snapshot: Option<Store>, fs: Fs, saveOk: bool)
    returns (outcome: RunOutcome, persisted: Option<Store>)
    ensures outcome == RunDecision(cli, config, local, cwd, LoadStore(snapshot), fs)
    ensures persisted == SnapshotAfterRun(cli, config, local, cwd, snapshot, fs, saveOk)
  {
    var memoryEnabled := MemoryEnabled(config, local);
    var envFiles: seq<string>;
    if cli.envFiles == [] && memoryEnabled {
      var mem := new Memory.Load(snapshot);
      envFiles := [];
      if cwd.Some? {
        var remembered := mem.Get(cwd.value, fs.canon);
        if remembered.Some? {
          envFiles := FilterExisting(remembered.value, fs.pathExists);
        }
      }
    } else if local.Some? {
      envFiles := ExpandAliases(local.value, cli.envFiles);
    } else {
      envFiles := cli.envFiles;
    }
    assert envFiles == ResolveEnvFiles(cli.envFiles, memoryEnabled, local, cwd, LoadStore(snapshot), fs);
    persisted := snapshot;
    if envFiles == [] {
      return NoEnvFiles, persisted;
    }
    if cli.command == [] {
      return NoCommand, persisted;
    }
    var loaded := LoadEnvFiles(envFiles, fs.read);
    if loaded.Err? {
      return LoadFailed(loaded.error), persisted;
    }
    if memoryEnabled && cwd.Some? {
      var mem := new Memory.Load(snapshot);
      mem.Record(cwd.value, envFiles, config.memory.maxEntries, fs.canon);
      if saveOk {
        persisted := Some(mem.entries);
      }
    }
    outcome := Exec(cli.command, loaded.value);
  }

  /** `cmd_ls`: the remembered files for the current directory. */
  function CmdLs(cwd: Option<string>, snapshot: Option<Store>, canon: Canon): (r: LsOutcome)
    ensures r.NoCwd? <==> cwd.None?
    ensures r.Listed? ==> Lookup(LoadStore(snapshot), cwd.value, canon) == Some(r.files)
    ensures r.NothingRemembered? ==> Lookup(LoadStore(snapshot), cwd.value, canon).None?
  {
    match cwd
    case None => NoCwd
    case Some(dir) =>
      match Lookup(LoadStore(snapshot), dir, canon)
      case Some(files) => Listed(files)
      case None => NothingRemembered
  }

  /** The exit status of `cmd_ls`. */
  function LsExitCode(r: LsOutcome): nat
  {
    if r.NoCwd? then 1 else 0
  }

  /** `ls` fails only when the current directory is unknown, with or without an entry. */
  lemma LsFailsOnlyWithoutCwd(cwd: Option<string>, snapshot: Option<Store>, canon: Canon)
    ensures LsExitCode(CmdLs(cwd, snapshot, canon)) == 1 <==> cwd.None?
  {
  }

  /** Given files never consult memory: the list is the same whatever is stored. */
  lemma ExplicitFilesIgnoreMemory(cliFiles: seq<string>, enabled: bool, local: Option<LocalConfig>,
                                  cwd: Option<string>, stored: Store, other: Store, fs: Fs, otherFs: Fs)
    requires cliFiles != []
    ensures ResolveEnvFiles(cliFiles, enabled, local, cwd, stored, fs)
         == ResolveEnvFiles(cliFiles, enabled, local, cwd, other, otherFs)
  {
  }

  /** An empty list fails first, whatever the command, and nothing is loaded or recorded. */
  lemma EmptyFileListFailsFirst(cli: Cli, config: Config, local: Option<LocalConfig>, cwd: Option<string>,
                                snapshot: Option<Store>, fs: Fs, saveOk: bool)
    requires ResolveEnvFiles(cli.envFiles, MemoryEnabled(config, local), local, cwd, LoadStore(snapshot), fs) == []
    ensures RunDecision(cli, config, local, cwd, LoadStore(snapshot), fs) == NoEnvFiles
    ensures SnapshotAfterRun(cli, config, local, cwd, snapshot, fs, saveOk) == snapshot
  {
  }

  /** With no files given and memory off, a run always fails for want of files. */
  lemma NoFilesAndMemoryOffFails(cli: Cli, config: Config, local: Option<LocalConfig>, cwd: Option<string>,
                                 stored: Store, fs: Fs)
    requires cli.envFiles == [] && !MemoryEnabled(config, local)
    ensures RunDecision(cli, config, local, cwd, stored, fs) == NoEnvFiles
  {
  }

  /** An empty command fails only once the file list is known to be non-empty. */
  lemma EmptyCommandFailsSecond(cli: Cli, config: Config, local: Option<LocalConfig>, cwd: Option<string>,
                                snapshot: Option<Store>, fs: Fs, saveOk: bool)
    requires ResolveEnvFiles(cli.envFiles, MemoryEnabled(config, local), local, cwd, LoadStore(snapshot), fs) != []
    requires cli.command == []
    ensures RunDecision(cli, config, local, cwd, LoadStore(snapshot), fs) == NoCommand
    ensures SnapshotAfterRun(cli, config, local, cwd, snapshot, fs, saveOk) == snapshot
  {
  }

  /** A failed load ends the run with that error, and nothing is recorded. */
  lemma LoadFailureRecordsNothing(cli: Cli, config: Config, local: Option<LocalConfig>, cwd: Option<string>,
                                  snapshot: Option<Store>, fs: Fs, saveOk: bool)
    requires cli.command != []
    requires LoadSpec(ResolveEnvFiles(cli.envFiles, MemoryEnabled(config, local), local, cwd, LoadStore(snapshot), fs), fs.read).Err?
    ensures RunDecision(cli, config, local, cwd, LoadStore(snapshot), fs).LoadFailed?
    ensures SnapshotAfterRun(cli, config, local, cwd, snapshot, fs, saveOk) == snapshot
  {
  }

  /**
   * The snapshot changes only after a successful load with memory on, a cwd
   * and a successful save; the entry then holds at most the global bound,
   * whatever the local configuration says.
   */
  lemma RecordingPolicy(cli: Cli, config: Config, local: Option<LocalConfig>, cwd: Option<string>,
                        snapshot: Option<Store>, fs: Fs, saveOk: bool)
    requires SnapshotAfterRun(cli, config, local, cwd, snapshot, fs, saveOk) != snapshot
    ensures RunDecision(cli, config, local, cwd, LoadStore(snapshot), fs).Exec?
    ensures MemoryEnabled(config, local) && cwd.Some? && saveOk
    ensures var after := SnapshotAfterRun(cli, config, local, cwd, snapshot, fs, saveOk);
      after.Some? && |after.value[KeyFor(cwd.value, fs.canon)]| <= config.memory.maxEntries
  {
  }

  /** With the default configuration and no local override, memory is on and keeps ten files. */
  lemma DefaultsRememberTen(cli: Cli, local: Option<LocalConfig>, cwd: string,
                            snapshot: Option<Store>, fs: Fs)
    requires local.None? || local.value.memory == DefaultLocalConfig().memory
    requires RunDecision(cli, DefaultConfig(), local, Some(cwd), LoadStore(snapshot), fs).Exec?
    ensures MemoryEnabled(DefaultConfig(), local)
    ensures var after := SnapshotAfterRun(cli, DefaultConfig(), local, Some(cwd), snapshot, fs, true);
      after.Some? && |after.value[KeyFor(cwd, fs.canon)]| <= 10
  {
  }

  /**
   * Remembering works across runs: after a successful run with given files
   * in a directory that canonicalises, a run there with no files recalls a
   * list that starts with the files used (repeats collapsed, within the
   * bound), provided they still exist.
   */
  lemma RememberedNextRun(cli: Cli, config: Config, local: Option<LocalConfig>, cwd: string,
                          snapshot: Option<Store>, fs: Fs, next: Cli)
    requires MemoryEnabled(config, local) && fs.canon(cwd).Some?
    requires RunDecision(cli, config, local, Some(cwd), LoadStore(snapshot), fs).Exec?
    requires next.envFiles == []
    requires var used := ResolveEnvFiles(cli.envFiles, true, local, Some(cwd), LoadStore(snapshot), fs);
      forall f :: f in used ==> fs.pathExists(f)
    ensures var used := ResolveEnvFiles(cli.envFiles, true, local, Some(cwd), LoadStore(snapshot), fs);
      var after := SnapshotAfterRun(cli, config, local, Some(cwd), snapshot, fs, true);
      after.Some? &&
      Truncate(Dedup(used), config.memory.maxEntries)
        <= ResolveEnvFiles(next.envFiles, true, local, Some(cwd), after.value, fs)
  {
    var stored := LoadStore(snapshot);
    var used := ResolveEnvFiles(cli.envFiles, true, local, Some(cwd), stored, fs);
    var max := config.memory.maxEntries;
    var key := fs.canon(cwd).value;
    var entry := RecordEntry(if key in stored then stored[key] else [], used, max);
    var recorded := Recorded(stored, cwd, used, max, fs.canon);
    assert SnapshotAfterRun(cli, config, local, Some(cwd), snapshot, fs, true) == Some(recorded);
    LookupAfterRecord(stored, cwd, cwd, used, max, fs.canon);
    assert Recall(recorded, Some(cwd), fs) == FilterExisting(entry, fs.pathExists);
    RecordedEntry(stored, cwd, used, max, fs.canon);
    KeptPrefixExists(used, max, fs.pathExists);
    ExistingPrefixSurvivesFilter(Truncate(Dedup(used), max), entry, fs.pathExists);
  }

  /** The deduplicated, truncated front of a list of existing files exists too. */
  lemma KeptPrefixExists(used: seq<string>, max: nat, pathExists: string -> bool)
    requires forall f :: f in used ==> pathExists(f)
    ensures forall i :: 0 <= i < |Truncate(Dedup(used), max)| ==> pathExists(Truncate(Dedup(used), max)[i])
  {
    DedupMembers(used);
    var front := Truncate(Dedup(used), max);
    forall i | 0 <= i < |front| ensures pathExists(front[i]) {
      assert front[i] == Dedup(used)[i];
    }
  }

  /** Filtering keeps a prefix whose paths all exist. */
  lemma ExistingPrefixSurvivesFilter(front: seq<string>, entry: seq<string>, pathExists: string -> bool)
    requires front <= entry
    requires forall i :: 0 <= i < |front| ==> pathExists(front[i])
    ensures front <= FilterExisting(entry, pathExists)
  {
    assert entry == front + entry[|front|..];
    FilterExistingAllExist(front, pathExists);
    FilterExistingAppend(front, entry[|front|..], pathExists);
  }
}
