/** The coordinator, its mailbox and the spawned tasks as one transition system. */
module CoordinatorProtocol {
  import opened TaskInputs
  import opened BundlingTasks
  import opened Coordinator
  import opened Wrappers

  /** A task whose completion the coordinator has handled. */
  datatype Handled = Handled(task: nat, report: Report)

  /** `running` holds the tasks that have not sent their completion yet. */
  datatype Sys = Sys(c: Coord, mailbox: seq<Message>, running: set<nat>, handled: seq<Handled>, ignored: nat)

  function Initial(alwaysRebuild: bool): Sys {
    var c := Started(New(alwaysRebuild));
    Sys(c, [], {0}, [], 0)
  }

  /** Tasks that a handler has just spawned start running. */
  function Launched(before: Coord, after: Coord): set<nat> {
    set i: nat | i < |after.spawned| && IsNew(before, i) :: i
  }

  predicate IsNew(before: Coord, i: nat) {
    |before.spawned| <= i
  }

  /** Anybody but a task puts a message into the channel. */
  ghost predicate Send(s: Sys, t: Sys) {
    exists m: Message | !m.BundleCompleted? && !m.Close? :: t == s.(mailbox := s.mailbox + [m])
  }

  /** A task finishes: it sends its one report, and only then its future resolves. */
  ghost predicate Finish(s: Sys, t: Sys) {
    exists i: nat, env: Environment | i in s.running && i < |s.c.spawned| ::
      t == s.(mailbox := s.mailbox + [BundleCompleted(ReportOf(s.c.spawned[i], env))], running := s.running - {i})
  }

  function AfterHandling(s: Sys): Sys
    requires s.mailbox != []
  {
    var m := s.mailbox[0];
    var next := Handle(s.c, m);
    Sys(next,
        s.mailbox[1..],
        s.running + Launched(s.c, next),
        if m.BundleCompleted? && s.c.current.Some? then s.handled + [Handled(s.c.current.value, m.report)]
        else s.handled,
        if m.BundleCompleted? && !s.c.state.IsRunning() then s.ignored + 1 else s.ignored)
  }

  /** The coordinator handles the oldest message. */
  ghost predicate Deliver(s: Sys, t: Sys) {
    s.mailbox != [] && t == AfterHandling(s)
  }

  ghost predicate Next(s: Sys, t: Sys) {
    Send(s, t) || Finish(s, t) || Deliver(s, t)
  }

  ghost predicate IsRun(run: seq<Sys>, alwaysRebuild: bool) {
    && |run| > 0 && run[0] == Initial(alwaysRebuild)
    && forall i | 0 <= i < |run| - 1 :: StepAt(run, i)
  }

  ghost predicate StepAt(run: seq<Sys>, i: nat)
    requires i + 1 < |run|
  {
    Next(run[i], run[i + 1])
  }

  // ---- One running task, and no completion is ever unexpected -----------------------------

  function Completions(mailbox: seq<Message>): nat {
    if mailbox == [] then 0
    else Completions(mailbox[..|mailbox| - 1]) + if mailbox[|mailbox| - 1].BundleCompleted? then 1 else 0
  }

  lemma CompletionsPush(mailbox: seq<Message>, m: Message)
    ensures Completions(mailbox + [m]) == Completions(mailbox) + if m.BundleCompleted? then 1 else 0
  {
    assert (mailbox + [m])[..|mailbox|] == mailbox;
  }

  lemma {:induction false} CompletionsPop(mailbox: seq<Message>)
    requires mailbox != []
    ensures Completions(mailbox) == Completions(mailbox[1..]) + if mailbox[0].BundleCompleted? then 1 else 0
  {
    var n := |mailbox| - 1;
    if n > 0 {
      CompletionsPop(mailbox[..n]);
      assert mailbox[..n][1..] == mailbox[1..][..n - 1];
      assert mailbox[1..][n - 1] == mailbox[n];
    } else {
      assert mailbox[..0] == [] && mailbox[1..] == [];
    }
  }

  /** Either the current task is still running, or its one completion is in the mailbox. */
  ghost predicate OneTask(s: Sys) {
    && Valid(s.c)
    && s.c.state != Initialized
    && s.ignored == 0
    && (forall m | m in s.mailbox :: !m.Close?)
    && match s.c.current
       case None => s.running == {} && Completions(s.mailbox) == 0
       case Some(i) =>
         || (s.running == {i} && Completions(s.mailbox) == 0)
         || (s.running == {} && Completions(s.mailbox) == 1)
  }

  /** A full build only ever runs as the task the full-build state is about. */
  ghost predicate FullBuildState(s: Sys) {
    s.c.state.FullBuildInProgress? ==>
      s.c.current.Some? && s.c.current.value < |s.c.spawned| && s.c.spawned[s.c.current.value].FullBuild?
  }

  lemma ScheduledSpawnsAtMostOne(c: Coord)
    requires Valid(c)
    ensures Valid(Scheduled(c))
    ensures !c.state.Initialized? ==> !Scheduled(c).state.Initialized?
    ensures c.current.Some? ==> Scheduled(c) == c
    ensures Scheduled(c).spawned == c.spawned ||
            (c.current.None? && |Scheduled(c).spawned| == |c.spawned| + 1
                && Scheduled(c).spawned[..|c.spawned|] == c.spawned)
    ensures Scheduled(c).current.Some? && c.current.None? ==> |Scheduled(c).spawned| == |c.spawned| + 1
    ensures Scheduled(c).state.FullBuildInProgress? && c.current.None? ==> Scheduled(c).spawned[|c.spawned|].FullBuild?
  {
    if c.queued != [] {
      MergeFrontKeepsFullBuild(c.queued[0], c.queued[1..]);
    }
  }

  /** What any handler may do to the task bookkeeping: nothing, or retire the current task, and then
      spawn at most one task when none is current. */
  ghost predicate Bookkeeping(c: Coord, d: Coord, retire: bool) {
    var idle := retire || c.current.None?;
    && Valid(d) && !d.state.Initialized?
    && (!idle ==> d.spawned == c.spawned && d.current == c.current && d.state == c.state)
    && (idle && d.current.None? ==> d.spawned == c.spawned)
    && (idle && d.current.Some? ==>
          && |d.spawned| == |c.spawned| + 1 && d.spawned[..|c.spawned|] == c.spawned
          && d.current == Some(|c.spawned|)
          && (d.state.FullBuildInProgress? ==> d.spawned[|c.spawned|].FullBuild?))
  }

  lemma FilesChangedBookkeeping(c: Coord, changes: Changes)
    requires Valid(c) && !c.state.Initialized?
    ensures Bookkeeping(c, FilesChanged(c, changes), false)
  {
    if changes != map[] && !c.state.FullBuildInProgress? {
      if c.state.FullBuildFailed? {
        ScheduledSpawnsAtMostOne(c.(waiting := map[], queued := c.queued + [FullBuild]));
      } else {
        ScheduledSpawnsAtMostOne(c.(queued := c.queued + [ChangeTask(c, changes)]));
      }
    }
  }

  lemma CompletedBookkeeping(c: Coord, report: Report)
    requires Valid(c) && c.state.IsRunning()
    ensures Bookkeeping(c, Completed(c, report), true)
  {
    if c.state.FullBuildInProgress? {
      if report.errorStage.None? {
        var idle := c.(current := None, stale := false, state := Idle, waiting := map[]);
        FilesChangedBookkeeping(idle, c.waiting);
      }
    } else {
      ScheduledSpawnsAtMostOne(c.(current := None, stale := !report.hasGeneratedBundleOutput, state := Idle));
      if report.errorStage.Some? {
        ScheduledSpawnsAtMostOne(c.(current := None, state := Failed(report.errorStage.value), stale := true));
      }
    }
  }

  lemma HandleBookkeeping(c: Coord, m: Message)
    requires Valid(c) && !c.state.Initialized? && !m.Close?
    requires m.BundleCompleted? ==> c.state.IsRunning()
    ensures Bookkeeping(c, Handle(c, m), m.BundleCompleted?)
  {
    match m
    case WatchEvent(events) => FilesChangedBookkeeping(c, Collect(events));
    case BundleCompleted(report) => CompletedBookkeeping(c, report);
    case ScheduleBuildIfStale => ScheduledSpawnsAtMostOne(c);
    case GetState =>
    case EnsureLatestBundleOutput =>
      ScheduledSpawnsAtMostOne(c);
      ScheduledSpawnsAtMostOne(c.(queued := c.queued + [Rebuild(map[])]));
    case TriggerFullBuild => ScheduledSpawnsAtMostOne(c.(queued := [FullBuild]));
    case ModuleChanged(moduleId) =>
      ScheduledSpawnsAtMostOne(c.(queued := c.queued + [Rebuild(map[moduleId := Update])], stale := true));
  }

  lemma DeliverKeepsOneTask(s: Sys)
    requires OneTask(s) && FullBuildState(s) && s.mailbox != []
    ensures OneTask(AfterHandling(s)) && FullBuildState(AfterHandling(s))
  {
    var m, t := s.mailbox[0], AfterHandling(s);
    assert m in s.mailbox;
    CompletionsPop(s.mailbox);
    assert m.BundleCompleted? ==> s.c.current.Some? && s.running == {} && Completions(t.mailbox) == 0;
    HandleBookkeeping(s.c, m);
    var d := t.c;
    forall x | x in t.mailbox ensures !x.Close? {
      assert x in s.mailbox;
    }
    if |d.spawned| == |s.c.spawned| {
      assert Launched(s.c, d) == {};
    } else {
      assert |d.spawned| == |s.c.spawned| + 1 && IsNew(s.c, |s.c.spawned|);
      assert Launched(s.c, d) == {|s.c.spawned|};
    }
    assert t.running == s.running + Launched(s.c, d);
  }

  lemma NextKeepsOneTask(s: Sys, t: Sys)
    requires OneTask(s) && FullBuildState(s) && Next(s, t)
    ensures OneTask(t) && FullBuildState(t)
  {
    if Deliver(s, t) {
      DeliverKeepsOneTask(s);
    } else {
      var m := t.mailbox[|s.mailbox|];
      assert t.mailbox == s.mailbox + [m];
      CompletionsPush(s.mailbox, m);
    }
  }

  lemma InitialHasOneTask(alwaysRebuild: bool)
    ensures OneTask(Initial(alwaysRebuild)) && FullBuildState(Initial(alwaysRebuild))
  {
  }

  lemma {:induction false} RunHasOneTask(run: seq<Sys>, alwaysRebuild: bool, i: nat)
    requires IsRun(run, alwaysRebuild) && i < |run|
    ensures OneTask(run[i]) && FullBuildState(run[i])
  {
    if i == 0 {
      InitialHasOneTask(alwaysRebuild);
    } else {
      RunHasOneTask(run, alwaysRebuild, i - 1);
      assert StepAt(run, i - 1);
      NextKeepsOneTask(run[i - 1], run[i]);
    }
  }

  /** In every reachable state before close: a future is present exactly in the two in-progress
      states, at most one task runs, and no completion has been ignored as unexpected. */
  lemma AtMostOneTaskRuns(run: seq<Sys>, alwaysRebuild: bool, i: nat)
    requires IsRun(run, alwaysRebuild) && i < |run|
    ensures var s := run[i];
      && (s.c.current.Some? <==> s.c.state.InProgress? || s.c.state.FullBuildInProgress?)
      && |s.running| <= 1
      && (s.running != {} ==> s.c.current.Some? && s.running == {s.c.current.value})
      && s.ignored == 0
  {
    RunHasOneTask(run, alwaysRebuild, i);
  }

  // ---- A fresh flag means the latest task produced output ---------------------------------

  /** While no task runs, a cleared staleness flag means that the task spawned last was handled and
      reported a success with output. Tasks are handled in the order they were spawned. */
  ghost predicate FreshFlag(s: Sys) {
    && (forall k | 0 <= k < |s.handled| :: s.handled[k].task == k)
    && |s.handled| + (if s.c.current.Some? then 1 else 0) == |s.c.spawned|
    && (s.c.current.None? && !s.c.stale ==>
          && |s.handled| > 0
          && s.handled[|s.handled| - 1].report == Report(None, true))
  }

  /** Every completion in the mailbox is a report that the current task can make. */
  ghost predicate HonestReports(s: Sys) {
    forall m | m in s.mailbox && m.BundleCompleted? ::
      s.c.current.Some? && s.c.current.value < |s.c.spawned| &&
      exists env :: m.report == ReportOf(s.c.spawned[s.c.current.value], env)
  }

  lemma FilesChangedStale(c: Coord, changes: Changes)
    ensures FilesChanged(c, changes).stale == c.stale
  {
  }

  lemma HandleStale(c: Coord, m: Message)
    requires Valid(c) && !m.Close? && !Handle(c, m).stale
    ensures m.BundleCompleted? && c.state.IsRunning() ==>
              m.report.errorStage.None? && (c.state.InProgress? ==> m.report.hasGeneratedBundleOutput)
    ensures !m.BundleCompleted? ==> !c.stale
  {
    match m
    case WatchEvent(events) => FilesChangedStale(c, Collect(events));
    case BundleCompleted(report) =>
    case _ =>
  }

  lemma NoneCompleted(mailbox: seq<Message>)
    requires Completions(mailbox) == 0
    ensures forall m | m in mailbox :: !m.BundleCompleted?
  {
    if mailbox != [] {
      var n := |mailbox| - 1;
      NoneCompleted(mailbox[..n]);
      assert mailbox == mailbox[..n] + [mailbox[n]];
    }
  }

  lemma DeliverKeepsFreshFlag(s: Sys)
    requires OneTask(s) && FullBuildState(s) && FreshFlag(s) && HonestReports(s) && s.mailbox != []
    ensures FreshFlag(AfterHandling(s)) && HonestReports(AfterHandling(s))
  {
    var m, t := s.mailbox[0], AfterHandling(s);
    assert m in s.mailbox;
    CompletionsPop(s.mailbox);
    HandleBookkeeping(s.c, m);
    if !t.c.stale && t.c.current.None? {
      HandleStale(s.c, m);
      if m.BundleCompleted? {
        var env :| m.report == ReportOf(s.c.spawned[s.c.current.value], env);
        if s.c.state.FullBuildInProgress? {
          FullBuildSuccessHasOutput(s.c.spawned[s.c.current.value], env);
        }
      }
    }
    forall x | x in t.mailbox && x.BundleCompleted?
      ensures t.c.current.Some? && t.c.current.value < |t.c.spawned| &&
              exists env :: x.report == ReportOf(t.c.spawned[t.c.current.value], env)
    {
      assert x in s.mailbox;
      if m.BundleCompleted? {
        NoneCompleted(t.mailbox);
      }
    }
  }

  lemma NextKeepsFreshFlag(s: Sys, t: Sys)
    requires OneTask(s) && FullBuildState(s) && FreshFlag(s) && HonestReports(s) && Next(s, t)
    ensures FreshFlag(t) && HonestReports(t)
  {
    if Deliver(s, t) {
      DeliverKeepsFreshFlag(s);
    } else if Finish(s, t) {
      var i: nat, env :| i in s.running && i < |s.c.spawned| &&
        t == s.(mailbox := s.mailbox + [BundleCompleted(ReportOf(s.c.spawned[i], env))], running := s.running - {i});
      assert s.c.current == Some(i);
    }
  }

  lemma InitialHasFreshFlag(alwaysRebuild: bool)
    ensures FreshFlag(Initial(alwaysRebuild)) && HonestReports(Initial(alwaysRebuild))
  {
  }

  lemma {:induction false} RunHasFreshFlag(run: seq<Sys>, alwaysRebuild: bool, i: nat)
    requires IsRun(run, alwaysRebuild) && i < |run|
    ensures FreshFlag(run[i]) && HonestReports(run[i])
  {
    if i == 0 {
      InitialHasFreshFlag(alwaysRebuild);
    } else {
      RunHasFreshFlag(run, alwaysRebuild, i - 1);
      RunHasOneTask(run, alwaysRebuild, i - 1);
      assert StepAt(run, i - 1);
      NextKeepsFreshFlag(run[i - 1], run[i]);
    }
  }

  lemma {:induction false} AccountKeptAlongRun(run: seq<Sys>, alwaysRebuild: bool, i: nat, j: nat, path: Path,
      since: nat)
    requires IsRun(run, alwaysRebuild) && i <= j < |run|
    requires since <= |run[i].c.spawned| && Accounted(run[i].c, path, since)
    ensures since <= |run[j].c.spawned| && Accounted(run[j].c, path, since)
  {
    if i < j {
      AccountKeptAlongRun(run, alwaysRebuild, i, j - 1, path, since);
      assert StepAt(run, j - 1);
      NextKeepsAccount(run[j - 1], run[j], path, since);
    }
  }

  lemma NextKeepsAccount(s: Sys, t: Sys, path: Path, since: nat)
    requires Next(s, t) && since <= |s.c.spawned| && Accounted(s.c, path, since)
    ensures since <= |t.c.spawned| && Accounted(t.c, path, since)
  {
    if Deliver(s, t) {
      HandleKeepsAccount(s.c, s.mailbox[0], path, since);
      HandleOnlySpawns(s.c, s.mailbox[0]);
    } else {
      assert t.c == s.c;
    }
  }

  /** When the coordinator is idle with nothing queued or waiting and its output is not stale, every
      change accepted earlier was given to a task, and the last of the tasks reported a success with
      output. */
  lemma FreshCoversAcceptedChanges(
      run: seq<Sys>, alwaysRebuild: bool, i: nat, j: nat, events: seq<(Path, ChangeKind)>, e: nat)
    requires IsRun(run, alwaysRebuild) && i < j < |run| && e < |events|
    // The coordinator accepts `events` in step i ...
    requires run[i].mailbox != [] && run[i].mailbox[0] == WatchEvent(events) && run[i + 1] == AfterHandling(run[i])
    // ... and later reports fresh output.
    requires var c := run[j].c; c.state.Idle? && c.queued == [] && c.waiting == map[] && !c.stale
    ensures var s := run[j];
      && (exists k | |run[i].c.spawned| <= k < |s.c.spawned| :: s.c.spawned[k].Covers(events[e].0))
      && |s.handled| == |s.c.spawned| > 0
      && s.handled[|s.handled| - 1] == Handled(|s.c.spawned| - 1, Report(None, true))
  {
    RunHasOneTask(run, alwaysRebuild, i);
    RunHasOneTask(run, alwaysRebuild, j);
    RunHasFreshFlag(run, alwaysRebuild, j);
    var since, path := |run[i].c.spawned|, events[e].0;
    assert path in Collect(events);
    FilesChangedKeepsAccount(run[i].c, Collect(events), path, since);
    HandleOnlySpawns(run[i].c, WatchEvent(events));
    AccountKeptAlongRun(run, alwaysRebuild, i + 1, j, path, since);
  }
}
