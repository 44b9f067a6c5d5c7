/**
 * src/watch.rs: `watch_and_run`, which runs a command, watches its env
 * files and restarts the command when one of them is modified or created,
 * at most once per debounce window.
 *
 * The notify watcher and its channel become a finite trace of messages; each
 * file-system event carries the time it is received (milliseconds) and the
 * view of the files a reload at that moment would read. Child processes are
 * abstract: the loop keeps a log of what it does to them.
 */
module Watch {
  import opened Wrappers
  import opened Env

  /** The debounce window: an event is accepted only strictly more than this after the last restart. */
  const DebounceMs: nat := 200

  datatype EventKind = Access | Create | Modify | Remove | Other

  /** What the loop receives: an event, or the channel reporting an error. */
  datatype Message = Event(kind: EventKind, at: int, read: Reader) | ChannelError

  type Pid = nat

  /** What the loop does to child processes. */
  datatype ProcAction = Spawn(pid: Pid, vars: Vars) | Kill(pid: Pid) | Reap(pid: Pid)

  /**
   * The loop's state: the time of the last (re)start, the child slot, the
   * next process id, the times of accepted restarts, the process log, and
   * the exit status once the loop has ended.
   */
  datatype Loop = Loop(lastRun: int, child: Option<Pid>, nextPid: Pid, restarts: seq<int>,
                       log: seq<ProcAction>, exit: Option<nat>)

  /** Only modifications and creations can restart the command. */
  predicate IsTrigger(kind: EventKind)
  {
    kind == Modify || kind == Create
  }

  /** `Instant::duration_since`: the time since `last`, never negative. */
  function Elapsed(now: int, last: int): (r: nat)
    ensures now >= last ==> r == now - last
    ensures now <= last ==> r == 0
  {
    if now > last then now - last else 0
  }

  /** Takes the child out of its slot, killing and then reaping it. */
  function Stop(s: Loop): (r: Loop)
    ensures r.child.None?
    ensures r.log == s.log + (if s.child.Some? then [Kill(s.child.value), Reap(s.child.value)] else [])
    ensures r == s.(child := r.child, log := r.log)
  {
    match s.child
    case None => s
    case Some(p) => s.(child := None, log := s.log + [Kill(p), Reap(p)])
  }

  /** One message of the loop (src/watch.rs:43-72). */
  function Step(files: seq<string>, s: Loop, m: Message): (r: Loop)
    requires s.exit.None?
    ensures r.exit.Some? <==> m.ChannelError?
    ensures m.ChannelError? ==> r.exit == Some(1) && r.child.None?
    ensures m.Event? && !(IsTrigger(m.kind) && m.at > s.lastRun + DebounceMs) ==> r == s
    ensures m.Event? && IsTrigger(m.kind) && m.at > s.lastRun + DebounceMs ==>
      r == Restart(s, m.at, LoadSpec(files, m.read))
    ensures s.log <= r.log
  {
    match m
    case ChannelError => Stop(s).(exit := Some(1))
    case Event(kind, at, read) =>
      if IsTrigger(kind) && Elapsed(at, s.lastRun) > DebounceMs then Restart(s, at, LoadSpec(files, read))
      else s
  }

  /**
   * An accepted event at time `at` (src/watch.rs:48-58): the restart is
   * logged, the child is stopped, and a new one is spawned when the reload
   * succeeded.
   */
  function Restart(s: Loop, at: int, reload: Result<Vars, LoadError>): (r: Loop)
    ensures r.lastRun == at && r.restarts == s.restarts + [at] && r.exit == s.exit
    ensures r.child == if reload.Ok? then Some(s.nextPid) else None
    ensures r.log == s.log + (if s.child.Some? then [Kill(s.child.value), Reap(s.child.value)] else [])
                           + (if reload.Ok? then [Spawn(s.nextPid, reload.value)] else [])
  {
    var stopped := Stop(s.(lastRun := at, restarts := s.restarts + [at]));
    match reload
    case Ok(vars) =>
      stopped.(child := Some(stopped.nextPid), nextPid := stopped.nextPid + 1,
               log := stopped.log + [Spawn(stopped.nextPid, vars)])
    case Err(_) => stopped
  }

  /** The loop over a finite trace, ending early once it has exited. */
  function Run(files: seq<string>, s: Loop, messages: seq<Message>): Loop
    decreases |messages|
  {
    if s.exit.Some? || messages == [] then s
    else Run(files, Step(files, s, messages[0]), messages[1..])
  }

  /** The state at the start of the loop, or the exit when the first load fails (src/watch.rs:14-18, 40). */
  function Start(files: seq<string>, initialRead: Reader, startTime: int): (r: Loop)
    ensures r.lastRun == startTime && r.restarts == []
    ensures r.exit.Some? <==> LoadSpec(files, initialRead).Err?
    ensures r.exit.Some? ==> r.exit == Some(1) && r.child.None? && r.log == []
    ensures r.exit.None? ==> r.child == Some(0) && r.log == [Spawn(0, LoadSpec(files, initialRead).value)]
  {
    match LoadSpec(files, initialRead)
    case Err(_) => Loop(startTime, None, 0, [], [], Some(1))
    case Ok(vars) => Loop(startTime, Some(0), 1, [], [Spawn(0, vars)], None)
  }

  /** `watch_and_run` on a trace of messages. */
  function Supervise(files: seq<string>, initialRead: Reader, startTime: int, messages: seq<Message>): Loop
  {
    Run(files, Start(files, initialRead, startTime), messages)
  }

  /** The files that could not be watched, in order: each is only warned about (src/watch.rs:32-36). */
  function Unwatchable(files: seq<string>, canWatch: string -> bool): (r: seq<string>)
    ensures forall f :: f in r ==> f in files && !canWatch(f)
    ensures forall f :: f in files && !canWatch(f) ==> f in r
  {
    if files == [] then []
    else
      var init := files[..|files| - 1];
      var last := files[|files| - 1];
      assert files == init + [last];
      Unwatchable(init, canWatch) + (if canWatch(last) then [] else [last])
  }

  /**
   * `watch_and_run`: load, spawn, register the watches, then take the
   * messages one by one. Returns the warnings and the state the loop ends in.
   */
  method WatchAndRun(files: seq<string>, canWatch: string -> bool, initialRead: Reader,
                     startTime: int, messages: seq<Message>)
    returns (warnings: seq<string>, final: Loop)
    ensures warnings == if LoadSpec(files, initialRead).Ok? then Unwatchable(files, canWatch) else []
    ensures final == Supervise(files, initialRead, startTime, messages)
  {
    var initial := LoadEnvFiles(files, initialRead);
    if initial.Err? {
      return [], Loop(startTime, None, 0, [], [], Some(1));
    }
    var child: Option<Pid> := Some(0);
    var nextPid: Pid := 1;
    var log := [Spawn(0, initial.value)];
    warnings := [];
    for k := 0 to |files|
      invariant warnings == Unwatchable(files[..k], canWatch)
    {
      assert files[..k + 1][..k] == files[..k];
      if !canWatch(files[k]) {
        warnings := warnings + [files[k]];
      }
    }
    assert files[..|files|] == files;
    var lastRun := startTime;
    var restarts: seq<int> := [];
    var exit: Option<nat> := None;
    var i := 0;
    while i < |messages| && exit.None?
      invariant 0 <= i <= |messages|
      decreases |messages| - i
      invariant Run(files, Loop(lastRun, child, nextPid, restarts, log, exit), messages[i..])
             == Supervise(files, initialRead, startTime, messages)
    {
      ghost var before := Loop(lastRun, child, nextPid, restarts, log, exit);
      assert messages[i..][1..] == messages[i + 1..];
      match messages[i] {
        case ChannelError =>
          if child.Some? {
            log := log + [Kill(child.value), Reap(child.value)];
            child := None;
          }
          exit := Some(1);
        case Event(kind, at, read) =>
          if IsTrigger(kind) && Elapsed(at, lastRun) > DebounceMs {
            lastRun := at;
            restarts := restarts + [at];
            if child.Some? {
              log := log + [Kill(child.value), Reap(child.value)];
              child := None;
            }
            var reloaded := LoadEnvFiles(files, read);
            if reloaded.Ok? {
              log := log + [Spawn(nextPid, reloaded.value)];
              child := Some(nextPid);
              nextPid := nextPid + 1;
            }
          }
      }
      assert Loop(lastRun, child, nextPid, restarts, log, exit) == Step(files, before, messages[i]);
      i := i + 1;
    }
    final := Loop(lastRun, child, nextPid, restarts, log, exit);
  }

  // ---------------------------------------------------------------------------
  // Single steps

  /** A failed first load exits with status 1 before anything is spawned. */
  lemma FailedStartNeverSpawns(files: seq<string>, initialRead: Reader, startTime: int, messages: seq<Message>)
    requires LoadSpec(files, initialRead).Err?
    ensures Supervise(files, initialRead, startTime, messages).exit == Some(1)
    ensures Supervise(files, initialRead, startTime, messages).log == []
  {
  }

  /** Events other than modifications and creations change nothing. */
  lemma NonTriggerIgnored(files: seq<string>, s: Loop, kind: EventKind, at: int, read: Reader)
    requires s.exit.None? && !IsTrigger(kind)
    ensures Step(files, s, Event(kind, at, read)) == s
  {
  }

  /** An event within the debounce window of the last restart changes nothing. */
  lemma DebouncedEventDropped(files: seq<string>, s: Loop, kind: EventKind, at: int, read: Reader)
    requires s.exit.None? && at <= s.lastRun + DebounceMs
    ensures Step(files, s, Event(kind, at, read)) == s
  {
  }

  /**
   * An accepted event restarts at its own time: the old child is killed and
   * reaped first, then a new one is spawned with the reloaded variables; a
   * failed reload leaves the slot empty and the loop listening.
   */
  lemma AcceptedEventRestarts(files: seq<string>, s: Loop, kind: EventKind, at: int, read: Reader)
    requires s.exit.None? && IsTrigger(kind) && at > s.lastRun + DebounceMs
    ensures var r := Step(files, s, Event(kind, at, read));
      var stopped := s.log + (if s.child.Some? then [Kill(s.child.value), Reap(s.child.value)] else []);
      && r.lastRun == at && r.restarts == s.restarts + [at] && r.exit.None?
      && (LoadSpec(files, read).Ok? ==>
            r.child == Some(s.nextPid) && r.log == stopped + [Spawn(s.nextPid, LoadSpec(files, read).value)])
      && (LoadSpec(files, read).Err? ==> r.child.None? && r.log == stopped)
  {
  }

  /** A channel error kills and reaps the child and exits with status 1. */
  lemma ChannelErrorExits(files: seq<string>, s: Loop)
    requires s.exit.None?
    ensures var r := Step(files, s, ChannelError);
      && r.exit == Some(1) && r.child.None?
      && r.log == s.log + (if s.child.Some? then [Kill(s.child.value), Reap(s.child.value)] else [])
  {
  }

  /** Once exited, the loop takes no more messages. */
  lemma ExitedStaysExited(files: seq<string>, s: Loop, messages: seq<Message>)
    requires s.exit.Some?
    ensures Run(files, s, messages) == s
  {
  }

  /** A running loop exits only on a channel error, and then with status 1. */
  lemma {:induction false} ExitsOnlyOnChannelError(files: seq<string>, s: Loop, messages: seq<Message>)
    requires s.exit.None?
    requires Run(files, s, messages).exit.Some?
    ensures Run(files, s, messages).exit == Some(1)
    ensures exists i :: 0 <= i < |messages| && messages[i].ChannelError?
    decreases |messages|
  {
    assert messages != [];
    var next := Step(files, s, messages[0]);
    if messages[0].ChannelError? {
      assert messages[0].ChannelError?;
    } else {
      assert next.exit.None?;
      ExitsOnlyOnChannelError(files, next, messages[1..]);
      var i :| 0 <= i < |messages[1..]| && messages[1..][i].ChannelError?;
      assert messages[i + 1].ChannelError?;
    }
  }

  // ---------------------------------------------------------------------------
  // At most one child

  /** The processes spawned and not yet reaped after a log. */
  function Live(log: seq<ProcAction>): set<Pid>
    decreases |log|
  {
    if log == [] then {}
    else
      Effect(Live(log[..|log| - 1]), log[|log| - 1])
  }

  /** How one action changes the live set: a spawn adds, a reap removes, a kill alone does not. */
  function Effect(live: set<Pid>, a: ProcAction): set<Pid>
  {
    match a
    case Spawn(p, _) => live + {p}
    case Kill(_) => live
    case Reap(p) => live - {p}
  }

  /** Every spawn in the log happens when no other child is live. */
  predicate SpawnsAlone(log: seq<ProcAction>)
  {
    forall i :: 0 <= i < |log| && log[i].Spawn? ==> Live(log[..i]) == {}
  }

  /** The child slot as a set. */
  function Slot(child: Option<Pid>): set<Pid>
  {
    if child.Some? then {child.value} else {}
  }

  /** What the loop keeps true: the slot is the one live child, spawns are alone, an exit leaves nothing live. */
  predicate Invariant(s: Loop)
  {
    Live(s.log) == Slot(s.child) && SpawnsAlone(s.log) && (s.exit.Some? ==> s.child.None?)
  }

  lemma LiveSnoc(log: seq<ProcAction>, a: ProcAction)
    ensures Live(log + [a]) == Effect(Live(log), a)
  {
    assert (log + [a])[..|log|] == log;
  }

  lemma SpawnsAloneSnoc(log: seq<ProcAction>, a: ProcAction)
    requires SpawnsAlone(log)
    requires a.Spawn? ==> Live(log) == {}
    ensures SpawnsAlone(log + [a])
  {
    var log' := log + [a];
    forall i | 0 <= i < |log'| && log'[i].Spawn? ensures Live(log'[..i]) == {} {
      if i < |log| {
        assert log'[..i] == log[..i];
      } else {
        assert log'[..i] == log;
      }
    }
  }

  lemma StopKeepsInvariant(s: Loop)
    requires Invariant(s)
    ensures Invariant(Stop(s)) && Live(Stop(s).log) == {}
  {
    if s.child.Some? {
      var p := s.child.value;
      LiveSnoc(s.log, Kill(p));
      SpawnsAloneSnoc(s.log, Kill(p));
      LiveSnoc(s.log + [Kill(p)], Reap(p));
      SpawnsAloneSnoc(s.log + [Kill(p)], Reap(p));
      assert s.log + [Kill(p), Reap(p)] == s.log + [Kill(p)] + [Reap(p)];
    }
  }

  /** A restart keeps the invariant: the old child is gone before the new one is spawned. */
  lemma RestartKeepsInvariant(s: Loop, at: int, reload: Result<Vars, LoadError>)
    requires s.exit.None? && Invariant(s)
    ensures Invariant(Restart(s, at, reload))
  {
    var moved := s.(lastRun := at, restarts := s.restarts + [at]);
    var stopped := Stop(moved);
    StopKeepsInvariant(moved);
    if reload.Ok? {
      var a := Spawn(stopped.nextPid, reload.value);
      LiveSnoc(stopped.log, a);
      SpawnsAloneSnoc(stopped.log, a);
    }
  }

  lemma StepKeepsInvariant(files: seq<string>, s: Loop, m: Message)
    requires s.exit.None? && Invariant(s)
    ensures Invariant(Step(files, s, m))
  {
    match m
    case ChannelError =>
      StopKeepsInvariant(s);
    case Event(kind, at, read) =>
      if IsTrigger(kind) && Elapsed(at, s.lastRun) > DebounceMs {
        RestartKeepsInvariant(s, at, LoadSpec(files, read));
        assert Step(files, s, m) == Restart(s, at, LoadSpec(files, read));
      }
  }

  lemma {:induction false} RunKeepsInvariant(files: seq<string>, s: Loop, messages: seq<Message>)
    requires Invariant(s)
    ensures Invariant(Run(files, s, messages))
    decreases |messages|
  {
    if s.exit.None? && messages != [] {
      StepKeepsInvariant(files, s, messages[0]);
      RunKeepsInvariant(files, Step(files, s, messages[0]), messages[1..]);
    }
  }

  /**
   * At most one child runs at a time: whatever the trace, every spawn
   * happens with no other child live, the slot holds the only live child,
   * and after an exit no child is left running.
   */
  lemma OneChildAtATime(files: seq<string>, initialRead: Reader, startTime: int, messages: seq<Message>)
    ensures var r := Supervise(files, initialRead, startTime, messages);
      && SpawnsAlone(r.log) && Live(r.log) == Slot(r.child) && |Live(r.log)| <= 1
      && (r.exit.Some? ==> Live(r.log) == {})
  {
    var s := Start(files, initialRead, startTime);
    if LoadSpec(files, initialRead).Ok? {
      LiveSnoc([], s.log[0]);
      assert [] + [s.log[0]] == s.log;
      assert s.log[..0] == [];
    }
    assert Invariant(s);
    RunKeepsInvariant(files, s, messages);
  }

  // ---------------------------------------------------------------------------
  // Restart spacing

  /** Each restart time is more than the debounce window after the previous one (or the start). */
  predicate Spaced(start: int, restarts: seq<int>)
  {
    forall i :: 0 <= i < |restarts| ==> restarts[i] > Previous(start, restarts, i) + DebounceMs
  }

  /** The restart before the `i`-th, or the start for the first. */
  function Previous(start: int, restarts: seq<int>, i: nat): int
    requires i < |restarts|
  {
    if i == 0 then start else restarts[i - 1]
  }

  /** The restart log agrees with `lastRun` and keeps its spacing. */
  predicate Paced(start: int, s: Loop)
  {
    && Spaced(start, s.restarts)
    && s.lastRun == (if s.restarts == [] then start else s.restarts[|s.restarts| - 1])
  }

  /** A step either leaves the timing alone or accepts a restart past the window. */
  lemma StepTiming(files: seq<string>, s: Loop, m: Message)
    requires s.exit.None?
    ensures var r := Step(files, s, m);
      || (r.lastRun == s.lastRun && r.restarts == s.restarts)
      || (r.lastRun > s.lastRun + DebounceMs && r.restarts == s.restarts + [r.lastRun])
  {
  }

  /** Keeping the timing or accepting a restart past the window keeps the pace. */
  lemma PaceKept(start: int, s: Loop, r: Loop)
    requires Paced(start, s)
    requires || (r.lastRun == s.lastRun && r.restarts == s.restarts)
             || (r.lastRun > s.lastRun + DebounceMs && r.restarts == s.restarts + [r.lastRun])
    ensures Paced(start, r)
  {
    if r.restarts != s.restarts {
      var n := |s.restarts|;
      assert r.restarts[n] == r.lastRun;
      assert forall i :: 0 <= i < n ==> r.restarts[i] == s.restarts[i];
      forall i | 0 <= i < |r.restarts|
        ensures r.restarts[i] > Previous(start, r.restarts, i) + DebounceMs
      {
        if i < n {
          assert s.restarts[i] > Previous(start, s.restarts, i) + DebounceMs;
        }
      }
    }
  }

  lemma StepKeepsPace(files: seq<string>, start: int, s: Loop, m: Message)
    requires s.exit.None? && Paced(start, s)
    ensures Paced(start, Step(files, s, m))
  {
    StepTiming(files, s, m);
    PaceKept(start, s, Step(files, s, m));
  }

  lemma {:induction false} RunKeepsPace(files: seq<string>, start: int, s: Loop, messages: seq<Message>)
    requires Paced(start, s)
    ensures Paced(start, Run(files, s, messages))
    decreases |messages|
  {
    if s.exit.None? && messages != [] {
      StepKeepsPace(files, start, s, messages[0]);
      RunKeepsPace(files, start, Step(files, s, messages[0]), messages[1..]);
    }
  }

  /** Spacing between neighbours adds up: restarts `j - i` apart are more than `j - i` windows apart. */
  lemma {:induction false} SpacedApart(start: int, restarts: seq<int>, i: nat, j: nat)
    requires Spaced(start, restarts) && i < j < |restarts|
    ensures restarts[j] - restarts[i] > (j - i) * DebounceMs
    decreases j - i
  {
    if j > i + 1 {
      SpacedApart(start, restarts, i, j - 1);
    }
  }

  /**
   * Restarts are debounced: the first comes more than 200 ms after the loop
   * starts, and any two are more than 200 ms apart.
   */
  lemma RestartsDebounced(files: seq<string>, initialRead: Reader, startTime: int, messages: seq<Message>)
    ensures var rs := Supervise(files, initialRead, startTime, messages).restarts;
      && (rs != [] ==> rs[0] > startTime + DebounceMs)
      && (forall i, j :: 0 <= i < j < |rs| ==> rs[j] - rs[i] > DebounceMs)
  {
    var s := Start(files, initialRead, startTime);
    assert Paced(startTime, s);
    RunKeepsPace(files, startTime, s, messages);
    SpacedPairwise(startTime, Run(files, s, messages).restarts);
  }

  /** Spacing between neighbours gives spacing between any two, and the first after the start. */
  lemma SpacedPairwise(start: int, rs: seq<int>)
    requires Spaced(start, rs)
    ensures rs != [] ==> rs[0] > start + DebounceMs
    ensures forall i, j :: 0 <= i < j < |rs| ==> rs[j] - rs[i] > DebounceMs
  {
    if rs != [] {
      assert rs[0] > Previous(start, rs, 0) + DebounceMs;
    }
    forall i, j | 0 <= i < j < |rs| ensures rs[j] - rs[i] > DebounceMs {
      SpacedApart(start, rs, i, j);
    }
  }

  // ---------------------------------------------------------------------------
  // Examples

  /** Two modifications 150 ms apart, the first 250 ms after the start: only the first restarts. */
  lemma BurstRestartsOnce(files: seq<string>, initialRead: Reader, read: Reader)
    requires LoadSpec(files, initialRead).Ok?
    ensures var r := Supervise(files, initialRead, 0, [Event(Modify, 250, read), Event(Modify, 400, read)]);
      r.restarts == [250] && r.exit.None? && r.lastRun == 250
  {
    var s := Start(files, initialRead, 0);
    var msgs := [Event(Modify, 250, read), Event(Modify, 400, read)];
    var s1 := Step(files, s, msgs[0]);
    assert s1.restarts == [250] && s1.lastRun == 250 && s1.exit.None? by {
      AcceptedEventRestarts(files, s, Modify, 250, read);
    }
    DebouncedEventDropped(files, s1, Modify, 400, read);
    assert msgs[1..] == [Event(Modify, 400, read)];
    assert [Event(Modify, 400, read)][1..] == [];
    assert Run(files, s, msgs) == Run(files, s1, msgs[1..]);
    assert Run(files, s1, msgs[1..]) == Run(files, s1, []);
  }

  /** A modification within 200 ms of the start is dropped; an access never restarts. */
  lemma EarlyAndAccessIgnored(files: seq<string>, initialRead: Reader, read: Reader)
    requires LoadSpec(files, initialRead).Ok?
    ensures var r := Supervise(files, initialRead, 0, [Event(Modify, 200, read), Event(Access, 1000, read)]);
      r == Start(files, initialRead, 0)
  {
    var s := Start(files, initialRead, 0);
    var msgs := [Event(Modify, 200, read), Event(Access, 1000, read)];
    DebouncedEventDropped(files, s, Modify, 200, read);
    NonTriggerIgnored(files, s, Access, 1000, read);
    assert msgs[1..] == [Event(Access, 1000, read)];
    assert [Event(Access, 1000, read)][1..] == [];
    assert Run(files, s, msgs) == Run(files, s, msgs[1..]);
    assert Run(files, s, msgs[1..]) == Run(files, s, []);
  }
}
