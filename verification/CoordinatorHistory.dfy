/** What the coordinator does next, told by the history of the run instead of by its state. */
module CoordinatorHistory {
  import opened BundlingTasks
  import opened Coordinator
  import opened CoordinatorLimits
  import opened CoordinatorProtocol
  import opened TaskInputs
  import opened Wrappers

  /** The state that the end of a task leads to, as long as no other task starts. */
  function Outcome(task: TaskInput, report: Report): State {
    if report.errorStage.None? then Idle
    else if task.FullBuild? then FullBuildFailed
    else Failed(report.errorStage.value)
  }

  /** The task that ended last and its report. */
  ghost predicate LastEnded(s: Sys, task: TaskInput, report: Report) {
    s.handled != [] && var last := s.handled[|s.handled| - 1];
      last.task < |s.c.spawned| && task == s.c.spawned[last.task] && report == last.report
  }

  /** No task runs, and the last one failed in its rebuild stage. */
  ghost predicate RestsOnFailedRebuild(s: Sys) {
    s.c.current.None? && exists task, report ::
      LastEnded(s, task, report) && !task.FullBuild? && report.errorStage == Some(RebuildStage)
  }

  /** No task runs, and the last one was a full build that failed. */
  ghost predicate RestsOnFailedFullBuild(s: Sys) {
    s.c.current.None? && exists task, report :: LastEnded(s, task, report) && task.FullBuild? && report.errorStage.Some?
  }

  /** No task runs, and the last one succeeded. */
  ghost predicate RestsOnSuccess(s: Sys) {
    s.c.current.None? && exists task, report :: LastEnded(s, task, report) && report.errorStage.None?
  }

  ghost predicate RunsFullBuild(s: Sys) {
    s.c.current.Some? && s.c.current.value < |s.c.spawned| && s.c.spawned[s.c.current.value].FullBuild?
  }

  /** The state tells which kind of task runs, or how the last one ended. */
  ghost predicate Remembers(s: Sys) {
    && |s.handled| + (if s.c.current.Some? then 1 else 0) == |s.c.spawned|
    && (forall k | 0 <= k < |s.handled| :: s.handled[k].task == k)
    && (s.c.state.FullBuildInProgress? <==> RunsFullBuild(s))
    && (s.c.current.None? ==>
          |s.handled| > 0 && s.c.state == Outcome(s.c.spawned[|s.handled| - 1], s.handled[|s.handled| - 1].report))
    && (s.c.state.Failed? ==> s.c.queued == [])
  }

  lemma RestsIff(s: Sys)
    requires Remembers(s)
    ensures RestsOnFailedRebuild(s) <==> s.c.current.None? && s.c.state == Failed(RebuildStage)
    ensures RestsOnFailedFullBuild(s) <==> s.c.current.None? && s.c.state == FullBuildFailed
    ensures RestsOnSuccess(s) <==> s.c.current.None? && s.c.state == Idle
  {
    if s.c.current.None? {
      assert LastEnded(s, s.c.spawned[|s.handled| - 1], s.handled[|s.handled| - 1].report);
    }
  }

  // ---- One message ------------------------------------------------------------------------

  /** The front of the queue is merged and started. */
  ghost predicate StartsFront(queue: seq<TaskInput>, before: Coord, after: Coord)
    requires queue != []
  {
    var (front, rest) := MergeFront(queue[0], queue[1..]);
    after.queued == rest && after.spawned == before.spawned + [front]
  }

  ghost predicate StartsNothing(before: Coord, after: Coord) {
    after.queued == before.queued && after.spawned == before.spawned
  }

  /** One more input is queued; if no task runs, the next one is started. */
  ghost predicate Adds(before: Coord, after: Coord, task: TaskInput) {
    var queue := before.queued + [task];
    if before.current.Some? then after.queued == queue && after.spawned == before.spawned
    else StartsFront(queue, before, after)
  }

  ghost predicate Starts(c: Coord, d: Coord) {
    && |d.spawned| == |c.spawned| + 1 && d.state.IsRunning()
    && (d.state.FullBuildInProgress? <==> d.spawned[|c.spawned|].FullBuild?)
  }

  lemma ScheduledState(c: Coord)
    requires Valid(c)
    ensures var d := Scheduled(c);
      && (d.spawned == c.spawned ==> d.state == c.state && d.queued == c.queued && d.current == c.current)
      && (c.current.None? && !c.state.Initialized? && c.queued != [] ==> d.spawned != c.spawned)
      && (d.spawned != c.spawned ==> Starts(c, d))
  {
  }

  /** What holds of the state after a message: it is that of the task just started, that of the task
      just ended, or the one before. */
  ghost predicate Follows(c: Coord, m: Message, d: Coord) {
    && (d.spawned != c.spawned ==> Starts(c, d))
    && (d.spawned == c.spawned ==> d.state == if m.BundleCompleted? then Ended(c.state, m.report) else c.state)
    && (d.state.Failed? && (c.state.Failed? ==> c.queued == []) ==> d.queued == [])
  }

  function Ended(state: State, report: Report): State {
    if report.errorStage.None? then Idle
    else if state.FullBuildInProgress? then FullBuildFailed
    else Failed(report.errorStage.value)
  }

  lemma FilesChangedFollows(c: Coord, events: seq<(Path, ChangeKind)>)
    requires Valid(c) && !c.state.Initialized?
    ensures Follows(c, WatchEvent(events), FilesChanged(c, Collect(events)))
  {
    var changes := Collect(events);
    ScheduledState(c.(waiting := map[], queued := c.queued + [FullBuild]));
    ScheduledState(c.(queued := c.queued + [ChangeTask(c, changes)]));
  }

  lemma CompletedFollows(c: Coord, report: Report)
    requires Valid(c) && c.state.IsRunning()
    ensures Follows(c, BundleCompleted(report), Completed(c, report))
  {
    var idle := c.(current := None, stale := false, state := Idle, waiting := map[]);
    if c.state.FullBuildInProgress? {
      if report.errorStage.None? && c.waiting != map[] {
        ScheduledState(idle.(queued := c.queued + [ChangeTask(idle, c.waiting)]));
      }
    } else if report.errorStage.Some? {
      ScheduledState(c.(current := None, state := Failed(report.errorStage.value), stale := true));
    } else {
      ScheduledState(c.(current := None, stale := !report.hasGeneratedBundleOutput, state := Idle));
    }
  }

  lemma HandleFollows(c: Coord, m: Message)
    requires Valid(c) && !c.state.Initialized? && !m.Close?
    requires m.BundleCompleted? ==> c.state.IsRunning()
    ensures Follows(c, m, Handle(c, m))
  {
    match m
    case WatchEvent(events) => FilesChangedFollows(c, events);
    case BundleCompleted(report) => CompletedFollows(c, report);
    case ScheduleBuildIfStale => ScheduledState(c);
    case GetState =>
    case EnsureLatestBundleOutput =>
      ScheduledState(c);
      ScheduledState(c.(queued := c.queued + [Rebuild(map[])]));
    case TriggerFullBuild => ScheduledState(c.(queued := [FullBuild]));
    case ModuleChanged(moduleId) =>
      ScheduledState(c.(queued := c.queued + [Rebuild(map[moduleId := Update])], stale := true));
  }

  // ---- Along runs -------------------------------------------------------------------------

  lemma DeliverRemembers(s: Sys)
    requires OneTask(s) && FullBuildState(s) && Remembers(s) && s.mailbox != []
    ensures Remembers(AfterHandling(s))
  {
    var m := s.mailbox[0];
    assert m in s.mailbox;
    CompletionsPop(s.mailbox);
    HandleBookkeeping(s.c, m);
    HandleFollows(s.c, m);
  }

  lemma {:induction false} RunRemembers(run: seq<Sys>, alwaysRebuild: bool, i: nat)
    requires IsRun(run, alwaysRebuild) && i < |run|
    ensures Remembers(run[i])
  {
    if i == 0 {
      InitialRemembers(alwaysRebuild);
    } else {
      RunRemembers(run, alwaysRebuild, i - 1);
      RunHasOneTask(run, alwaysRebuild, i - 1);
      assert StepAt(run, i - 1);
      NextRemembers(run[i - 1], run[i]);
    }
  }

  lemma InitialRemembers(alwaysRebuild: bool)
    ensures Remembers(Initial(alwaysRebuild))
  {
    assert MergeFront(FullBuild, []) == (FullBuild, []);
  }

  lemma NextRemembers(s: Sys, t: Sys)
    requires OneTask(s) && FullBuildState(s) && Remembers(s) && Next(s, t)
    ensures Remembers(t)
  {
    if Deliver(s, t) {
      DeliverRemembers(s);
    } else {
      assert t.c == s.c && t.handled == s.handled;
    }
  }

  lemma HandleKeepsOption(c: Coord, m: Message)
    ensures Handle(c, m).alwaysRebuild == c.alwaysRebuild
  {
  }

  lemma {:induction false} RunKeepsOption(run: seq<Sys>, alwaysRebuild: bool, i: nat)
    requires IsRun(run, alwaysRebuild) && i < |run|
    ensures run[i].c.alwaysRebuild == alwaysRebuild
  {
    if i > 0 {
      RunKeepsOption(run, alwaysRebuild, i - 1);
      assert StepAt(run, i - 1);
      if Deliver(run[i - 1], run[i]) {
        HandleKeepsOption(run[i - 1].c, run[i - 1].mailbox[0]);
      }
    }
  }

  /** The coordinator handles message `m` in step `j`. */
  ghost predicate Handles(run: seq<Sys>, j: nat, m: Message)
    requires j + 1 < |run|
  {
    Deliver(run[j], run[j + 1]) && run[j].mailbox[0] == m
  }

  lemma BeforeHandling(run: seq<Sys>, alwaysRebuild: bool, j: nat, m: Message)
    requires IsRun(run, alwaysRebuild) && j + 1 < |run| && Handles(run, j, m)
    ensures Remembers(run[j]) && Valid(run[j].c) && !run[j].c.state.Initialized? && !m.Close?
    ensures run[j].c.alwaysRebuild == alwaysRebuild && run[j + 1].c == Handle(run[j].c, m)
    ensures m.BundleCompleted? ==> run[j].c.state.IsRunning()
  {
    RunHasOneTask(run, alwaysRebuild, j);
    RunRemembers(run, alwaysRebuild, j);
    RunKeepsOption(run, alwaysRebuild, j);
    assert run[j].mailbox[0] in run[j].mailbox;
    CompletionsPop(run[j].mailbox);
  }

  // ---- What an edit leads to --------------------------------------------------------------

  /** The input for changed files: it includes a rebuild if asked to. */
  ghost predicate IsEditTask(task: TaskInput, events: seq<(Path, ChangeKind)>, rebuilds: bool) {
    && !task.FullBuild? && task.RequiresHmrUpdate() && (task.RequiresRebuild() <==> rebuilds)
    && IsLatest(events, task.ChangedFiles())
  }

  /** Every path that the events name, with the kind of its last event. */
  ghost predicate IsLatest(events: seq<(Path, ChangeKind)>, changes: Changes) {
    && (forall path :: path in changes <==> exists i | 0 <= i < |events| :: events[i].0 == path)
    && (forall i | 0 <= i < |events| && (forall j | i < j < |events| :: events[j].0 != events[i].0) ::
          events[i].0 in changes && changes[events[i].0] == events[i].1)
  }

  lemma CollectedAt(events: seq<(Path, ChangeKind)>, i: nat)
    requires i < |events| && forall j | i < j < |events| :: events[j].0 != events[i].0
    ensures events[i].0 in Collect(events) && Collect(events)[events[i].0] == events[i].1
    decreases |events|
  {
    var n := |events| - 1;
    var front := events[..n];
    if i < n {
      assert front[i] == events[i] && forall j | i < j < n :: front[j] == events[j];
      CollectedAt(front, i);
      assert events[n].0 != events[i].0;
    }
    assert Collect(events) == Collect(front)[events[n].0 := events[n].1];
  }

  lemma CollectIsLatest(events: seq<(Path, ChangeKind)>)
    ensures IsLatest(events, Collect(events))
    ensures events != [] ==> Collect(events) != map[]
  {
    forall i: nat | i < |events| && (forall j | i < j < |events| :: events[j].0 != events[i].0)
      ensures events[i].0 in Collect(events) && Collect(events)[events[i].0] == events[i].1
    {
      CollectedAt(events, i);
    }
    if events != [] {
      assert events[0].0 in Collect(events);
    }
  }

  lemma EnqueuedAdds(c: Coord, task: TaskInput)
    requires Valid(c) && !c.state.Initialized?
    ensures Adds(c, Enqueued(c, task), task) && Enqueued(c, task).waiting == c.waiting
  {
  }

  /** In every run: an edit adds one input to the work that was queued, unless a full build runs. After a
      failed full build it is a full build. Otherwise it updates the changed files, and it includes a
      rebuild if and only if the option says always, or no task has started since one failed in its
      rebuild stage. */
  lemma EditAddsTask(run: seq<Sys>, alwaysRebuild: bool, j: nat, events: seq<(Path, ChangeKind)>)
    returns (task: TaskInput)
    requires IsRun(run, alwaysRebuild) && j + 1 < |run| && Handles(run, j, WatchEvent(events)) && events != []
    requires !RunsFullBuild(run[j])
    ensures Adds(run[j].c, run[j + 1].c, task)
    ensures if RestsOnFailedFullBuild(run[j]) then task.FullBuild? && run[j + 1].c.waiting == map[]
            else IsEditTask(task, events, alwaysRebuild || RestsOnFailedRebuild(run[j]))
                 && run[j + 1].c.waiting == run[j].c.waiting
  {
    var c := run[j].c;
    BeforeHandling(run, alwaysRebuild, j, WatchEvent(events));
    RestsIff(run[j]);
    CollectIsLatest(events);
    if c.state.FullBuildFailed? {
      task := FullBuild;
      EnqueuedAdds(c.(waiting := map[]), task);
    } else {
      task := ChangeTask(c, Collect(events));
      EnqueuedAdds(c, task);
    }
  }

  /** The edit that follows a failed rebuild starts at once, as the only input, and rebuilds. */
  lemma RecoveringEditRebuilds(run: seq<Sys>, alwaysRebuild: bool, j: nat, events: seq<(Path, ChangeKind)>)
    returns (task: TaskInput)
    requires IsRun(run, alwaysRebuild) && j + 1 < |run| && Handles(run, j, WatchEvent(events)) && events != []
    requires RestsOnFailedRebuild(run[j])
    ensures run[j + 1].c.spawned == run[j].c.spawned + [task] && run[j + 1].c.queued == []
    ensures IsEditTask(task, events, true)
  {
    BeforeHandling(run, alwaysRebuild, j, WatchEvent(events));
    RestsIff(run[j]);
    task := EditAddsTask(run, alwaysRebuild, j, events);
    assert run[j].c.queued + [task] == [task] && MergeFront(task, []) == (task, []);
  }

  /** An edit during a full build starts and queues nothing; it waits, and replaces what waited for the
      same file. */
  lemma EditWaitsForFullBuild(run: seq<Sys>, alwaysRebuild: bool, j: nat, events: seq<(Path, ChangeKind)>)
    returns (changes: Changes)
    requires IsRun(run, alwaysRebuild) && j + 1 < |run| && Handles(run, j, WatchEvent(events))
    requires RunsFullBuild(run[j])
    ensures StartsNothing(run[j].c, run[j + 1].c) && IsLatest(events, changes)
    ensures forall path :: path in run[j + 1].c.waiting <==> path in run[j].c.waiting || path in changes
    ensures forall path | path in run[j + 1].c.waiting ::
      run[j + 1].c.waiting[path] == if path in changes then changes[path] else run[j].c.waiting[path]
  {
    BeforeHandling(run, alwaysRebuild, j, WatchEvent(events));
    CollectIsLatest(events);
    changes := Collect(events);
  }

  // ---- What the other messages lead to ----------------------------------------------------

  /** The input for what waited for a full build. */
  ghost predicate IsWaitingTask(task: TaskInput, waiting: Changes, rebuilds: bool) {
    && !task.FullBuild? && task.RequiresHmrUpdate() && (task.RequiresRebuild() <==> rebuilds)
    && task.ChangedFiles() == waiting
  }

  /** When a task ends: a failed full build leaves everything as it is, a successful one starts with
      what waited for it as the last input, and after any other task the queue goes on. */
  lemma EndGoesOn(run: seq<Sys>, alwaysRebuild: bool, j: nat, report: Report)
    requires IsRun(run, alwaysRebuild) && j + 1 < |run| && Handles(run, j, BundleCompleted(report))
    ensures var c, d := run[j].c, run[j + 1].c;
      if !RunsFullBuild(run[j]) then
        d.waiting == c.waiting && if c.queued == [] then StartsNothing(c, d) else StartsFront(c.queued, c, d)
      else if report.errorStage.Some? || c.waiting == map[] then StartsNothing(c, d) && d.waiting == c.waiting
      else d.waiting == map[] && exists task {:trigger IsWaitingTask(task, c.waiting, alwaysRebuild)} ::
             IsWaitingTask(task, c.waiting, alwaysRebuild) && StartsFront(c.queued + [task], c, d)
  {
    var c, d := run[j].c, run[j + 1].c;
    BeforeHandling(run, alwaysRebuild, j, BundleCompleted(report));
    if RunsFullBuild(run[j]) && report.errorStage.None? && c.waiting != map[] {
      var idle := c.(current := None, stale := false, state := Idle, waiting := map[]);
      var task := ChangeTask(idle, c.waiting);
      EnqueuedAdds(idle, task);
      assert IsWaitingTask(task, c.waiting, alwaysRebuild) && StartsFront(c.queued + [task], c, d);
    }
  }

  /** The requests: a changed module adds a rebuild of it; a triggered full build replaces the queue; a
      request for the latest output starts, only after a success, what is queued or else a rebuild of
      stale output; and scheduling starts what is queued. */
  lemma RequestsStart(run: seq<Sys>, alwaysRebuild: bool, j: nat, m: Message)
    requires IsRun(run, alwaysRebuild) && j + 1 < |run| && Handles(run, j, m)
    ensures var c, d := run[j].c, run[j + 1].c;
      match m
      case ModuleChanged(moduleId) => Adds(c, d, Rebuild(map[moduleId := Update])) && d.waiting == c.waiting
      case TriggerFullBuild =>
        d.waiting == c.waiting && if c.current.Some? then d.queued == [FullBuild] && d.spawned == c.spawned
        else d.queued == [] && d.spawned == c.spawned + [FullBuild]
      case EnsureLatestBundleOutput =>
        d.waiting == c.waiting && if !RestsOnSuccess(run[j]) then StartsNothing(c, d)
        else if c.queued != [] then StartsFront(c.queued, c, d)
        else if c.stale then d.queued == [] && d.spawned == c.spawned + [Rebuild(map[])]
        else StartsNothing(c, d)
      case ScheduleBuildIfStale =>
        d.waiting == c.waiting && if c.current.Some? || c.queued == [] then StartsNothing(c, d)
        else StartsFront(c.queued, c, d)
      case GetState => StartsNothing(c, d) && d.waiting == c.waiting
      case _ => true
  {
    var c := run[j].c;
    BeforeHandling(run, alwaysRebuild, j, m);
    RestsIff(run[j]);
    match m
    case ModuleChanged(moduleId) => EnqueuedAdds(c.(stale := true), Rebuild(map[moduleId := Update]));
    case TriggerFullBuild => assert MergeFront(FullBuild, []) == (FullBuild, []);
    case EnsureLatestBundleOutput =>
      assert [] + [Rebuild(map[])] == [Rebuild(map[])] && MergeFront(Rebuild(map[]), []) == (Rebuild(map[]), []);
    case _ =>
  }

  // ---- After a failed rebuild -------------------------------------------------------------

  /** Whatever starts the next task while the coordinator rests on a failed rebuild, it rebuilds. */
  lemma NextTaskRebuilds(run: seq<Sys>, alwaysRebuild: bool, j: nat)
    requires IsRun(run, alwaysRebuild) && j + 1 < |run| && RestsOnFailedRebuild(run[j])
    ensures run[j].c.spawned <= run[j + 1].c.spawned
    ensures if run[j + 1].c.spawned == run[j].c.spawned then RestsOnFailedRebuild(run[j + 1])
            else run[j + 1].c.spawned[|run[j].c.spawned|].RequiresRebuild()
  {
    assert run[j].c.current.None? && run[j].c.state == Failed(RebuildStage) by {
      RunRemembers(run, alwaysRebuild, j);
      RestsIff(run[j]);
    }
    StepSplits(run, alwaysRebuild, j);
    if Deliver(run[j], run[j + 1]) {
      DeliverRebuilds(run, alwaysRebuild, j);
    }
    assert run[j + 1].c.spawned == run[j].c.spawned ==> RestsOnFailedRebuild(run[j + 1]) by {
      RunRemembers(run, alwaysRebuild, j + 1);
      RestsIff(run[j + 1]);
    }
  }

  lemma DeliverRebuilds(run: seq<Sys>, alwaysRebuild: bool, j: nat)
    requires IsRun(run, alwaysRebuild) && j + 1 < |run| && Deliver(run[j], run[j + 1])
    requires run[j].c.current.None? && run[j].c.state == Failed(RebuildStage)
    ensures var c, d := run[j].c, run[j + 1].c;
      if d.spawned == c.spawned then d.state == c.state && d.current.None?
      else c.spawned < d.spawned && d.spawned[|c.spawned|].RequiresRebuild()
  {
    var c, m := run[j].c, run[j].mailbox[0];
    BeforeHandling(run, alwaysRebuild, j, m);
    assert c.queued == [];
    if m.WatchEvent? {
      var task := ChangeTask(c, Collect(m.events));
      assert [] + [task] == [task] && MergeFront(task, []) == (task, []);
    } else if m.ModuleChanged? {
      var task := Rebuild(map[m.moduleId := Update]);
      assert [] + [task] == [task] && MergeFront(task, []) == (task, []);
    } else if m.TriggerFullBuild? {
      assert MergeFront(FullBuild, []) == (FullBuild, []);
    }
  }

  lemma {:induction false} RestsUntilNext(run: seq<Sys>, alwaysRebuild: bool, i: nat, j: nat)
    requires IsRun(run, alwaysRebuild) && i <= j < |run| && RestsOnFailedRebuild(run[i])
    ensures run[i].c.spawned <= run[j].c.spawned
    ensures |run[j].c.spawned| > |run[i].c.spawned| ==> run[j].c.spawned[|run[i].c.spawned|].RequiresRebuild()
    ensures |run[j].c.spawned| == |run[i].c.spawned| ==> RestsOnFailedRebuild(run[j])
    decreases j - i
  {
    if i < j {
      RestsUntilNext(run, alwaysRebuild, i, j - 1);
      if RestsOnFailedRebuild(run[j - 1]) && |run[j - 1].c.spawned| == |run[i].c.spawned| {
        NextTaskRebuilds(run, alwaysRebuild, j - 1);
      } else {
        SpawnedGrows(run, alwaysRebuild, j - 1);
      }
    }
  }

  lemma SpawnedGrows(run: seq<Sys>, alwaysRebuild: bool, j: nat)
    requires IsRun(run, alwaysRebuild) && j + 1 < |run|
    ensures run[j].c.spawned <= run[j + 1].c.spawned
  {
    assert StepAt(run, j);
    RunHasOneTask(run, alwaysRebuild, j);
    if Deliver(run[j], run[j + 1]) {
      var m := run[j].mailbox[0];
      BeforeHandling(run, alwaysRebuild, j, m);
      HandleBookkeeping(run[j].c, m);
    }
  }

  lemma {:induction false} SpawnedOnlyGrows(run: seq<Sys>, alwaysRebuild: bool, i: nat, j: nat)
    requires IsRun(run, alwaysRebuild) && i <= j < |run|
    ensures run[i].c.spawned <= run[j].c.spawned
    decreases j - i
  {
    if i < j {
      SpawnedOnlyGrows(run, alwaysRebuild, i, j - 1);
      SpawnedGrows(run, alwaysRebuild, j - 1);
    }
  }

  /** In every run: the task that comes after one that failed in its rebuild stage includes a rebuild, if
      and only if nothing was queued when it failed, or what was merged from the queue then did. */
  lemma FailedRebuildIsRebuiltIff(run: seq<Sys>, alwaysRebuild: bool, i: nat, j: nat, report: Report)
    requires IsRun(run, alwaysRebuild) && i < j < |run| && Handles(run, i, BundleCompleted(report))
    requires !RunsFullBuild(run[i]) && report.errorStage == Some(RebuildStage)
    requires |run[j].c.spawned| > |run[i].c.spawned|
    ensures var queued := run[i].c.queued;
      run[j].c.spawned[|run[i].c.spawned|].RequiresRebuild() <==>
      queued == [] || MergeFront(queued[0], queued[1..]).0.RequiresRebuild()
  {
    EndGoesOn(run, alwaysRebuild, i, report);
    BeforeHandling(run, alwaysRebuild, i, BundleCompleted(report));
    RunRemembers(run, alwaysRebuild, i + 1);
    RestsIff(run[i + 1]);
    if run[i].c.queued == [] {
      RestsUntilNext(run, alwaysRebuild, i + 1, j);
    } else {
      SpawnedOnlyGrows(run, alwaysRebuild, i + 1, j);
    }
  }

  /** A run in which an edit was queued before the running rebuild failed: the task that follows the
      failure only updates, and does not rebuild. */
  lemma QueuedEditDoesNotRebuild(moduleId: Path, path: Path) returns (run: seq<Sys>)
    ensures IsRun(run, false)
    ensures run[|run| - 1].c.spawned == [FullBuild, Rebuild(map[moduleId := Update]), Hmr(map[path := Update])]
    ensures run[|run| - 1].handled == [Handled(0, Report(None, true)), Handled(1, Report(Some(RebuildStage), true))]
  {
    run := FirstBuild();
    var rebuild, edit := Rebuild(map[moduleId := Update]), Hmr(map[path := Update]);
    var idle := run[|run| - 1];
    run := Deliver1(run, ModuleChanged(moduleId));
    assert [] + [rebuild] == [rebuild] && MergeFront(rebuild, []) == (rebuild, []);
    var busy := run[|run| - 1];
    assert busy.c == Coord(InProgress, map[], [], true, Some(1), [FullBuild, rebuild], false);
    assert Launched(idle.c, busy.c) == {1} by {
      assert IsNew(idle.c, 1) && !IsNew(idle.c, 0);
    }
    run := Deliver1(run, WatchEvent([(path, Update)]));
    var queued := run[|run| - 1];
    EventsOf(path);
    assert path in Collect([(path, Update)]) && busy.c.queued + [edit] == [edit];
    assert queued.c == Coord(InProgress, map[], [edit], true, Some(1), [FullBuild, rebuild], false);
    assert Launched(busy.c, queued.c) == {};
    run := Complete(run, BAD);
    assert MergeFront(edit, []) == (edit, []);
  }

  lemma EventsOf(path: Path)
    ensures Collect([(path, Update)]) == map[path := Update]
  {
    assert [(path, Update)][..0] == [] && Collect([]) == map[];
  }

  // ---- When the output counts as stale ----------------------------------------------------

  ghost predicate ModuleChangesAt(run: seq<Sys>, i: nat)
    requires i + 1 < |run|
  {
    Deliver(run[i], run[i + 1]) && run[i].mailbox[0].ModuleChanged?
  }

  ghost predicate EndsAt(run: seq<Sys>, i: nat)
    requires i + 1 < |run|
  {
    Deliver(run[i], run[i + 1]) && run[i].mailbox[0].BundleCompleted?
  }

  ghost predicate NoEndBetween(run: seq<Sys>, i: nat, j: nat)
    requires j < |run|
  {
    forall k: nat {:trigger EndsAt(run, k)} | i < k < j :: !EndsAt(run, k)
  }

  /** A lazily compiled module has changed since a task ended last. */
  ghost predicate ChangedSinceEnd(run: seq<Sys>, j: nat)
    requires j < |run|
  {
    exists i: nat {:trigger ModuleChangesAt(run, i)} | i < j :: ModuleChangesAt(run, i) && NoEndBetween(run, i, j)
  }

  lemma ChangedNext(run: seq<Sys>, j: nat)
    requires j + 1 < |run|
    ensures ChangedSinceEnd(run, j + 1) <==> ModuleChangesAt(run, j) || (ChangedSinceEnd(run, j) && !EndsAt(run, j))
  {
    if ModuleChangesAt(run, j) {
      ChangeCounts(run, j, j + 1);
    }
    if ChangedSinceEnd(run, j) && !EndsAt(run, j) {
      var i: nat :| i < j && ModuleChangesAt(run, i) && NoEndBetween(run, i, j);
      ChangeCounts(run, i, j + 1);
    }
    if ChangedSinceEnd(run, j + 1) {
      LastChange(run, j);
    }
  }

  lemma ChangeCounts(run: seq<Sys>, i: nat, j: nat)
    requires i < j < |run| && ModuleChangesAt(run, i) && NoEndBetween(run, i, j - 1)
    requires i < j - 1 ==> !EndsAt(run, j - 1)
    ensures ChangedSinceEnd(run, j)
  {
    assert NoEndBetween(run, i, j);
  }

  lemma LastChange(run: seq<Sys>, j: nat)
    requires j + 1 < |run| && ChangedSinceEnd(run, j + 1)
    ensures ModuleChangesAt(run, j) || (ChangedSinceEnd(run, j) && !EndsAt(run, j))
  {
    var i: nat :| i < j + 1 && ModuleChangesAt(run, i) && NoEndBetween(run, i, j + 1);
    if i < j {
      assert !EndsAt(run, j);
      assert NoEndBetween(run, i, j);
    }
  }

  ghost predicate LastSucceededWithOutput(s: Sys) {
    s.handled != [] && s.handled[|s.handled| - 1].report == Report(None, true)
  }

  lemma HandleSetsStale(c: Coord, m: Message)
    requires Valid(c) && !c.state.Initialized? && !m.Close? && (m.BundleCompleted? ==> c.state.IsRunning())
    ensures Handle(c, m).stale ==
      match m
      case BundleCompleted(report) =>
        report.errorStage.Some? || (!c.state.FullBuildInProgress? && !report.hasGeneratedBundleOutput)
      case ModuleChanged(_) => true
      case _ => c.stale
  {
    if m.WatchEvent? {
      FilesChangedStale(c, Collect(m.events));
    } else if m.BundleCompleted? && c.state.FullBuildInProgress? {
      FilesChangedStale(c.(current := None, stale := false, state := Idle, waiting := map[]), c.waiting);
    }
  }

  /** In every run: the output counts as stale exactly if no task has ended yet, the last one that did
      was no success with output, or a lazily compiled module has changed since. */
  lemma {:induction false} StaleIff(run: seq<Sys>, alwaysRebuild: bool, j: nat)
    requires IsRun(run, alwaysRebuild) && j < |run|
    ensures run[j].c.stale <==> !LastSucceededWithOutput(run[j]) || ChangedSinceEnd(run, j)
  {
    if j == 0 {
      assert MergeFront(FullBuild, []) == (FullBuild, []);
    } else {
      StaleIff(run, alwaysRebuild, j - 1);
      ChangedNext(run, j - 1);
      assert StepAt(run, j - 1);
      if Deliver(run[j - 1], run[j]) {
        StaleStep(run, alwaysRebuild, j - 1);
      }
    }
  }

  lemma StaleStep(run: seq<Sys>, alwaysRebuild: bool, j: nat)
    requires IsRun(run, alwaysRebuild) && j + 1 < |run| && Deliver(run[j], run[j + 1])
    ensures var s, m := run[j], run[j].mailbox[0];
      && run[j + 1].c.stale ==
           (if m.BundleCompleted? then m.report != Report(None, true) else m.ModuleChanged? || s.c.stale)
      && LastSucceededWithOutput(run[j + 1]) ==
           if m.BundleCompleted? then m.report == Report(None, true) else LastSucceededWithOutput(s)
  {
    var s, m := run[j], run[j].mailbox[0];
    BeforeHandling(run, alwaysRebuild, j, m);
    RunHasOneTask(run, alwaysRebuild, j);
    RunHasFreshFlag(run, alwaysRebuild, j);
    HandleSetsStale(s.c, m);
    if m.BundleCompleted? && s.c.state.FullBuildInProgress? {
      assert m in s.mailbox;
      var env :| m.report == ReportOf(s.c.spawned[s.c.current.value], env);
      if m.report.errorStage.None? {
        FullBuildSuccessHasOutput(s.c.spawned[s.c.current.value], env);
      }
    }
  }
}
