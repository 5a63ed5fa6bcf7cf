/** Where the coordinator's states promise less than their names: a queue left behind, a change left parked. */
module CoordinatorLimits {
  import opened BundlingTasks
  import opened Coordinator
  import opened CoordinatorProtocol
  import opened TaskInputs
  import opened Wrappers

  // ---- One message ------------------------------------------------------------------------

  /** Nothing runs although tasks are queued. */
  predicate IsStalled(c: Coord) {
    c.state.Idle? && c.queued != []
  }

  /** A full build ends well with tasks queued behind it and no changes parked. */
  predicate LeavesQueue(c: Coord, m: Message) {
    && c.state.FullBuildInProgress? && m.BundleCompleted? && m.report.errorStage.None?
    && c.waiting == map[] && c.queued != []
  }

  /** A message that reschedules nothing when the coordinator is idle. */
  predicate IsQuiet(m: Message) {
    m.GetState? || m.BundleCompleted? || (m.WatchEvent? && m.events == [])
  }

  lemma NoChanges(events: seq<(Path, ChangeKind)>)
    ensures Collect(events) == map[] <==> events == []
  {
    if events != [] {
      assert events[0].0 in Collect(events);
    }
  }

  lemma ScheduledNeverStalls(c: Coord)
    requires Valid(c)
    ensures !IsStalled(Scheduled(c))
  {
  }

  lemma ChangedNeverStalls(c: Coord, changes: Changes)
    requires Valid(c) && changes != map[] && !c.state.Initialized?
    ensures !IsStalled(FilesChanged(c, changes))
  {
    if c.state.FullBuildFailed? {
      ScheduledNeverStalls(c.(waiting := map[], queued := c.queued + [FullBuild]));
    } else if !c.state.FullBuildInProgress? {
      ScheduledNeverStalls(c.(queued := c.queued + [ChangeTask(c, changes)]));
    }
  }

  lemma CompletedStalls(c: Coord, report: Report)
    requires Valid(c) && !c.state.Initialized?
    ensures IsStalled(Completed(c, report)) <==> LeavesQueue(c, BundleCompleted(report)) || IsStalled(c)
  {
    if c.state.FullBuildInProgress? && report.errorStage.None? && c.waiting != map[] {
      ChangedNeverStalls(c.(current := None, stale := false, state := Idle, waiting := map[]), c.waiting);
    } else if c.state.InProgress? {
      ScheduledNeverStalls(c.(current := None, stale := !report.hasGeneratedBundleOutput, state := Idle));
    }
  }

  /** Exactly when the handler leaves the coordinator idle with a queue. */
  lemma StallsIff(c: Coord, m: Message)
    requires Valid(c) && !c.state.Initialized? && !m.Close?
    ensures IsStalled(Handle(c, m)) <==> LeavesQueue(c, m) || (IsStalled(c) && IsQuiet(m))
  {
    match m
    case WatchEvent(events) =>
      NoChanges(events);
      if events != [] {
        ChangedNeverStalls(c, Collect(events));
      }
    case BundleCompleted(report) => CompletedStalls(c, report);
    case ScheduleBuildIfStale => ScheduledNeverStalls(c);
    case GetState =>
    case EnsureLatestBundleOutput =>
      ScheduledNeverStalls(c);
      ScheduledNeverStalls(c.(queued := c.queued + [Rebuild(map[])]));
    case TriggerFullBuild => ScheduledNeverStalls(c.(queued := [FullBuild]));
    case ModuleChanged(moduleId) =>
      ScheduledNeverStalls(c.(queued := c.queued + [Rebuild(map[moduleId := Update])], stale := true));
  }

  /** Changes wait although no full build runs that would pick them up. */
  predicate IsParked(c: Coord) {
    c.waiting != map[] && !c.state.FullBuildInProgress?
  }

  /** A full build fails while changes wait for it. */
  predicate ParksChanges(c: Coord, m: Message) {
    && c.state.FullBuildInProgress? && m.BundleCompleted? && m.report.errorStage.Some?
    && c.waiting != map[]
  }

  /** The coordinator answers the message, in its state, by taking a task from the queue. */
  predicate Reschedules(state: State, m: Message) {
    match m
    case WatchEvent(events) => events != [] && !state.IsRunning()
    case BundleCompleted(_) => state.InProgress?
    case EnsureLatestBundleOutput => state.Idle?
    case GetState => false
    case Close => false
    case _ => !state.IsRunning()
  }

  /** The first task is a full build, or a full build becomes the first task. */
  predicate FullBuildIsNext(c: Coord, m: Message) {
    || m.TriggerFullBuild?
    || (c.queued != [] && c.queued[0].FullBuild?)
    || (c.queued == [] && c.state.FullBuildFailed? && m.WatchEvent?)
  }

  lemma ScheduledFullBuild(c: Coord)
    requires Valid(c) && !c.state.Initialized? && !c.state.FullBuildInProgress?
    ensures Scheduled(c).state.FullBuildInProgress? <==>
      !c.state.IsRunning() && c.queued != [] && c.queued[0].FullBuild?
    ensures Scheduled(c).waiting == c.waiting
  {
    if c.queued != [] {
      MergeFrontKeepsFullBuild(c.queued[0], c.queued[1..]);
    }
  }

  lemma ChangedFullBuild(c: Coord, changes: Changes)
    requires Valid(c) && !c.state.Initialized? && !c.state.FullBuildInProgress? && changes != map[]
    ensures var d := FilesChanged(c, changes);
      && (d.state.FullBuildInProgress? <==>
            !c.state.IsRunning() && if c.queued == [] then c.state.FullBuildFailed? else c.queued[0].FullBuild?)
      && d.waiting == if c.state.FullBuildFailed? then map[] else c.waiting
  {
    if c.state.FullBuildFailed? {
      ScheduledFullBuild(c.(waiting := map[], queued := c.queued + [FullBuild]));
    } else {
      ScheduledFullBuild(c.(queued := c.queued + [ChangeTask(c, changes)]));
    }
  }

  lemma CompletedFullBuild(c: Coord, report: Report)
    requires Valid(c) && c.state.InProgress?
    ensures var d := Completed(c, report);
      (d.state.FullBuildInProgress? <==> c.queued != [] && c.queued[0].FullBuild?) && d.waiting == c.waiting
  {
    if report.errorStage.Some? {
      ScheduledFullBuild(c.(current := None, state := Failed(report.errorStage.value), stale := true));
    } else {
      ScheduledFullBuild(c.(current := None, stale := !report.hasGeneratedBundleOutput, state := Idle));
    }
  }

  /** What a handler does to the parked changes while no full build runs. */
  lemma OutsideFullBuild(c: Coord, m: Message)
    requires Valid(c) && !c.state.Initialized? && !c.state.FullBuildInProgress? && !m.Close?
    ensures Handle(c, m).state.FullBuildInProgress? <==> Reschedules(c.state, m) && FullBuildIsNext(c, m)
    ensures Handle(c, m).waiting ==
      if c.state.FullBuildFailed? && m.WatchEvent? && m.events != [] then map[] else c.waiting
  {
    match m
    case WatchEvent(events) =>
      NoChanges(events);
      if events != [] {
        ChangedFullBuild(c, Collect(events));
      }
    case BundleCompleted(report) =>
      if c.state.InProgress? {
        CompletedFullBuild(c, report);
      }
    case ScheduleBuildIfStale => ScheduledFullBuild(c);
    case GetState =>
    case EnsureLatestBundleOutput =>
      ScheduledFullBuild(c);
      ScheduledFullBuild(c.(queued := c.queued + [Rebuild(map[])]));
    case TriggerFullBuild => ScheduledFullBuild(c.(queued := [FullBuild]));
    case ModuleChanged(moduleId) =>
      ScheduledFullBuild(c.(queued := c.queued + [Rebuild(map[moduleId := Update])], stale := true));
  }

  /** A message that picks parked changes up: the next edit after a failed full build, or anything
      that starts a full build. */
  predicate PicksUp(c: Coord, m: Message) {
    || (c.state.FullBuildFailed? && m.WatchEvent? && m.events != [])
    || (Reschedules(c.state, m) && FullBuildIsNext(c, m))
  }

  /** Exactly when the handler leaves changes parked. */
  lemma ParksIff(c: Coord, m: Message)
    requires Valid(c) && !c.state.Initialized? && !m.Close?
    ensures IsParked(Handle(c, m)) <==> ParksChanges(c, m) || (IsParked(c) && !PicksUp(c, m))
  {
    if c.state.FullBuildInProgress? {
      InFullBuild(c, m);
    } else {
      OutsideFullBuild(c, m);
    }
  }

  lemma InFullBuild(c: Coord, m: Message)
    requires Valid(c) && c.state.FullBuildInProgress? && !m.Close?
    ensures IsParked(Handle(c, m)) <==> ParksChanges(c, m)
  {
    if m.BundleCompleted? && m.report.errorStage.None? {
      var idle := c.(current := None, stale := false, state := Idle, waiting := map[]);
      if c.waiting != map[] {
        ChangedFullBuild(idle, c.waiting);
      }
    }
  }

  // ---- Whole runs -------------------------------------------------------------------------

  ghost predicate LeavesQueueAt(run: seq<Sys>, i: nat)
    requires i + 1 < |run|
  {
    Deliver(run[i], run[i + 1]) && LeavesQueue(run[i].c, run[i].mailbox[0])
  }

  ghost predicate QuietAt(run: seq<Sys>, i: nat)
    requires i + 1 < |run|
  {
    Deliver(run[i], run[i + 1]) ==> IsQuiet(run[i].mailbox[0])
  }

  ghost predicate QueueLeftSince(run: seq<Sys>, i: nat, j: nat)
    requires i < j < |run|
  {
    LeavesQueueAt(run, i) && forall k {:trigger QuietAt(run, k)} | i < k < j :: QuietAt(run, k)
  }

  ghost predicate ParksAt(run: seq<Sys>, i: nat)
    requires i + 1 < |run|
  {
    Deliver(run[i], run[i + 1]) && ParksChanges(run[i].c, run[i].mailbox[0])
  }

  ghost predicate KeepsParkedAt(run: seq<Sys>, i: nat)
    requires i + 1 < |run|
  {
    Deliver(run[i], run[i + 1]) ==> !PicksUp(run[i].c, run[i].mailbox[0])
  }

  ghost predicate ParkedSince(run: seq<Sys>, i: nat, j: nat)
    requires i < j < |run|
  {
    ParksAt(run, i) && forall k {:trigger KeepsParkedAt(run, k)} | i < k < j :: KeepsParkedAt(run, k)
  }

  lemma StepSplits(run: seq<Sys>, alwaysRebuild: bool, j: nat)
    requires IsRun(run, alwaysRebuild) && j + 1 < |run|
    ensures if Deliver(run[j], run[j + 1]) then
              run[j + 1].c == Handle(run[j].c, run[j].mailbox[0]) && Valid(run[j].c) &&
              !run[j].c.state.Initialized? && !run[j].mailbox[0].Close?
            else run[j + 1].c == run[j].c
  {
    RunHasOneTask(run, alwaysRebuild, j);
    assert StepAt(run, j);
    if Deliver(run[j], run[j + 1]) {
      assert run[j].mailbox[0] in run[j].mailbox;
    }
  }

  lemma StallStep(run: seq<Sys>, alwaysRebuild: bool, j: nat)
    requires IsRun(run, alwaysRebuild) && j + 1 < |run|
    ensures IsStalled(run[j + 1].c) <==> LeavesQueueAt(run, j) || (IsStalled(run[j].c) && QuietAt(run, j))
  {
    StepSplits(run, alwaysRebuild, j);
    if Deliver(run[j], run[j + 1]) {
      StallsIff(run[j].c, run[j].mailbox[0]);
    }
  }

  lemma ParkStep(run: seq<Sys>, alwaysRebuild: bool, j: nat)
    requires IsRun(run, alwaysRebuild) && j + 1 < |run|
    ensures IsParked(run[j + 1].c) <==> ParksAt(run, j) || (IsParked(run[j].c) && KeepsParkedAt(run, j))
  {
    StepSplits(run, alwaysRebuild, j);
    if Deliver(run[j], run[j + 1]) {
      ParksIff(run[j].c, run[j].mailbox[0]);
    }
  }

  // A condition that steps start and keep: it holds exactly if some step started it and every step
  // since kept it.

  ghost predicate Since(starts: seq<bool>, keeps: seq<bool>, i: nat, j: nat)
    requires i < j <= |starts| == |keeps|
  {
    starts[i] && forall k | i < k < j :: keeps[k]
  }

  ghost predicate IsTrace(holds: seq<bool>, starts: seq<bool>, keeps: seq<bool>) {
    && |holds| == |starts| + 1 == |keeps| + 1 && !holds[0]
    && forall i | 0 <= i < |starts| :: HoldsNext(holds, starts, keeps, i)
  }

  ghost predicate HoldsNext(holds: seq<bool>, starts: seq<bool>, keeps: seq<bool>, i: nat)
    requires i + 1 < |holds| == |starts| + 1 == |keeps| + 1
  {
    holds[i + 1] <==> starts[i] || (holds[i] && keeps[i])
  }

  lemma {:induction false} HoldsSince(holds: seq<bool>, starts: seq<bool>, keeps: seq<bool>, j: nat)
    requires IsTrace(holds, starts, keeps) && j < |holds|
    ensures holds[j] <==> exists i | 0 <= i < j :: Since(starts, keeps, i, j)
  {
    if j > 0 {
      var n := j - 1;
      HoldsSince(holds, starts, keeps, n);
      assert HoldsNext(holds, starts, keeps, n);
      if starts[n] {
        assert Since(starts, keeps, n, j);
      }
      if i :| 0 <= i < n && Since(starts, keeps, i, n) && keeps[n] {
        assert Since(starts, keeps, i, j);
      }
      if i :| 0 <= i < j && Since(starts, keeps, i, j) {
        if i < n {
          assert Since(starts, keeps, i, n) && keeps[n];
        }
      }
    }
  }

  ghost function Stalls(run: seq<Sys>): seq<bool>
    ensures |Stalls(run)| == |run| && forall k | 0 <= k < |run| :: Stalls(run)[k] == IsStalled(run[k].c)
  {
    seq(|run|, k requires 0 <= k < |run| => IsStalled(run[k].c))
  }

  ghost function Parks(run: seq<Sys>): seq<bool>
    ensures |Parks(run)| == |run| && forall k | 0 <= k < |run| :: Parks(run)[k] == IsParked(run[k].c)
  {
    seq(|run|, k requires 0 <= k < |run| => IsParked(run[k].c))
  }

  lemma StallTrace(run: seq<Sys>, alwaysRebuild: bool, starts: seq<bool>, keeps: seq<bool>)
    requires IsRun(run, alwaysRebuild) && |starts| == |keeps| == |run| - 1
    requires forall k | 0 <= k < |starts| :: starts[k] == LeavesQueueAt(run, k) && keeps[k] == QuietAt(run, k)
    ensures IsTrace(Stalls(run), starts, keeps)
  {
    forall k | 0 <= k < |starts| ensures HoldsNext(Stalls(run), starts, keeps, k) {
      StallStep(run, alwaysRebuild, k);
    }
  }

  lemma ParkTrace(run: seq<Sys>, alwaysRebuild: bool, starts: seq<bool>, keeps: seq<bool>)
    requires IsRun(run, alwaysRebuild) && |starts| == |keeps| == |run| - 1
    requires forall k | 0 <= k < |starts| :: starts[k] == ParksAt(run, k) && keeps[k] == KeepsParkedAt(run, k)
    ensures IsTrace(Parks(run), starts, keeps)
  {
    forall k | 0 <= k < |starts| ensures HoldsNext(Parks(run), starts, keeps, k) {
      ParkStep(run, alwaysRebuild, k);
    }
  }

  /** In every run: the coordinator is idle with a queue exactly if some full build ended well before
      queued tasks, with nothing parked, and only quiet messages were handled since. */
  lemma IdleWithQueueIff(run: seq<Sys>, alwaysRebuild: bool, j: nat)
    requires IsRun(run, alwaysRebuild) && j < |run|
    ensures IsStalled(run[j].c) <==> exists i | 0 <= i < j :: QueueLeftSince(run, i, j)
  {
    var n := |run| - 1;
    var starts := seq(n, k requires 0 <= k < n => LeavesQueueAt(run, k));
    var keeps := seq(n, k requires 0 <= k < n => QuietAt(run, k));
    StallTrace(run, alwaysRebuild, starts, keeps);
    HoldsSince(Stalls(run), starts, keeps, j);
    forall i: nat | i < j ensures QueueLeftSince(run, i, j) <==> Since(starts, keeps, i, j) {
      assert forall k {:trigger QuietAt(run, k)} {:trigger keeps[k]} | i < k < j :: keeps[k] == QuietAt(run, k);
    }
  }

  /** In every run: changes are parked outside a full build exactly if some full build failed while
      changes waited, and no message handled since picked them up. */
  lemma ParkedIff(run: seq<Sys>, alwaysRebuild: bool, j: nat)
    requires IsRun(run, alwaysRebuild) && j < |run|
    ensures IsParked(run[j].c) <==> exists i | 0 <= i < j :: ParkedSince(run, i, j)
  {
    var n := |run| - 1;
    var starts := seq(n, k requires 0 <= k < n => ParksAt(run, k));
    var keeps := seq(n, k requires 0 <= k < n => KeepsParkedAt(run, k));
    ParkTrace(run, alwaysRebuild, starts, keeps);
    HoldsSince(Parks(run), starts, keeps, j);
    forall i: nat | i < j ensures ParkedSince(run, i, j) <==> Since(starts, keeps, i, j) {
      assert forall k {:trigger KeepsParkedAt(run, k)} {:trigger keeps[k]} | i < k < j ::
          keeps[k] == KeepsParkedAt(run, k);
    }
  }

  // ---- Two runs ---------------------------------------------------------------------------

  datatype Move = Put(message: Message) | End(env: Environment) | Take

  /** The move is possible. */
  predicate CanMove(s: Sys, move: Move) {
    match move
    case Put(m) => !m.BundleCompleted? && !m.Close?
    case End(_) => s.c.current.Some? && s.c.current.value in s.running && s.c.current.value < |s.c.spawned|
    case Take => s.mailbox != []
  }

  function Moved(s: Sys, move: Move): Sys
    requires CanMove(s, move)
  {
    match move
    case Put(m) => s.(mailbox := s.mailbox + [m])
    case End(env) =>
      var i := s.c.current.value;
      s.(mailbox := s.mailbox + [BundleCompleted(ReportOf(s.c.spawned[i], env))], running := s.running - {i})
    case Take => AfterHandling(s)
  }

  lemma MoveIsStep(s: Sys, move: Move)
    requires CanMove(s, move)
    ensures Next(s, Moved(s, move))
  {
    match move
    case Put(_) => assert Send(s, Moved(s, move));
    case End(_) => assert Finish(s, Moved(s, move));
    case Take => assert Deliver(s, Moved(s, move));
  }

  lemma LongerRun(run: seq<Sys>, move: Move) returns (longer: seq<Sys>)
    requires IsRun(run, false) && CanMove(run[|run| - 1], move)
    ensures IsRun(longer, false) && longer[|longer| - 1] == Moved(run[|run| - 1], move)
  {
    longer := run + [Moved(run[|run| - 1], move)];
    MoveIsStep(run[|run| - 1], move);
    forall i | 0 <= i < |longer| - 1 ensures StepAt(longer, i) {
      if i < |run| - 1 {
        assert StepAt(run, i);
      }
    }
  }

  const GOOD := Environment(false, {}, {}, false, true, true, true)
  const BAD := Environment(false, {}, {}, false, true, true, false)

  /** A task is running, nothing else is under way. */
  predicate IsBusy(s: Sys, state: State, queued: seq<TaskInput>, waiting: Changes) {
    && s.c.state == state && s.c.queued == queued && s.c.waiting == waiting && s.mailbox == [] && |s.c.spawned| > 0
    && s.c.current == Some(|s.c.spawned| - 1) && s.running == {|s.c.spawned| - 1} && !s.c.alwaysRebuild
    && s.c.spawned[|s.c.spawned| - 1].FullBuild? == state.FullBuildInProgress?
    && !s.c.spawned[|s.c.spawned| - 1].RequiresHmrUpdate()
  }

  lemma Deliver1(run: seq<Sys>, m: Message) returns (longer: seq<Sys>)
    requires IsRun(run, false) && run[|run| - 1].mailbox == [] && !m.BundleCompleted? && !m.Close?
    ensures IsRun(longer, false) && longer[|longer| - 1] == AfterHandling(run[|run| - 1].(mailbox := [m]))
  {
    assert [] + [m] == [m];
    longer := LongerRun(run, Put(m));
    longer := LongerRun(longer, Take);
  }

  lemma Complete(run: seq<Sys>, env: Environment) returns (longer: seq<Sys>)
    requires IsRun(run, false) && run[|run| - 1].mailbox == [] && CanMove(run[|run| - 1], End(env))
    ensures var s := run[|run| - 1]; var i := s.c.current.value;
      IsRun(longer, false) && longer[|longer| - 1] ==
        AfterHandling(s.(mailbox := [BundleCompleted(ReportOf(s.c.spawned[i], env))], running := s.running - {i}))
  {
    longer := LongerRun(run, End(env));
    longer := LongerRun(longer, Take);
  }

  lemma FirstBuild() returns (run: seq<Sys>)
    ensures IsRun(run, false) && run[|run| - 1].mailbox == [] && run[|run| - 1].running == {}
    ensures run[|run| - 1].c == Coord(Idle, map[], [], false, None, [FullBuild], false)
    ensures run[|run| - 1].handled == [Handled(0, Report(None, true))]
  {
    run := [Initial(false)];
    var started := run[0];
    assert MergeFront(FullBuild, []) == (FullBuild, []);
    assert started.c == Coord(FullBuildInProgress, map[], [], true, Some(0), [FullBuild], false);
    run := Complete(run, GOOD);
    assert Launched(started.c, run[|run| - 1].c) == {};
  }

  /** A run whose first build succeeded and whose second full build has just started. */
  lemma SecondFullBuild() returns (run: seq<Sys>)
    ensures IsRun(run, false) && IsBusy(run[|run| - 1], FullBuildInProgress, [], map[])
  {
    run := FirstBuild();
    var idle := run[|run| - 1];
    run := Deliver1(run, TriggerFullBuild);
    assert MergeFront(FullBuild, []) == (FullBuild, []);
    assert run[|run| - 1].c == Coord(FullBuildInProgress, map[], [], false, Some(1), [FullBuild, FullBuild], false);
    assert Launched(idle.c, run[|run| - 1].c) == {1} by {
      assert IsNew(idle.c, 1) && !IsNew(idle.c, 0);
    }
  }

  /** A run with honest reports that ends idle and not stale, with a queued task: a module change
      during a full build is left in the queue when that build succeeds. */
  lemma IdleWithQueuedTask(moduleId: Path) returns (run: seq<Sys>)
    ensures IsRun(run, false) && run[|run| - 1].mailbox == [] && run[|run| - 1].running == {}
    ensures var c := run[|run| - 1].c; IsStalled(c) && c.queued == [Rebuild(map[moduleId := Update])] && !c.stale
  {
    run := SecondFullBuild();
    var busy := run[|run| - 1];
    run := Deliver1(run, ModuleChanged(moduleId));
    assert Launched(busy.c, run[|run| - 1].c) == {};
    assert IsBusy(run[|run| - 1], FullBuildInProgress, [Rebuild(map[moduleId := Update])], map[]);
    var last := run[|run| - 1];
    run := Complete(run, GOOD);
    assert Launched(last.c, run[|run| - 1].c) == {};
  }

  /** A run with honest reports that ends with fresh output, as the retry loop sees it, although a
      change is still parked: it waited for a full build that failed, and a module change started a
      rebuild that succeeded. */
  lemma FreshWithParkedChange(path: Path, moduleId: Path) returns (run: seq<Sys>)
    ensures IsRun(run, false) && run[|run| - 1].mailbox == [] && run[|run| - 1].running == {}
    ensures var c := run[|run| - 1].c;
      IsParked(c) && path in c.waiting && c.state.Idle? && c.queued == [] && !c.stale && EnsureLatest(c).1 == None
  {
    run := SecondFullBuild();
    var busy := run[|run| - 1];
    run := Deliver1(run, WatchEvent([(path, Update)]));
    assert Launched(busy.c, run[|run| - 1].c) == {};
    assert [(path, Update)][0] == (path, Update);
    assert path in Collect([(path, Update)]);
    run := FailedWithParked(run, path);
    run := RebuildAfterFailure(run, path, moduleId);
  }

  lemma FailedWithParked(run: seq<Sys>, path: Path) returns (longer: seq<Sys>)
    requires IsRun(run, false) && path in run[|run| - 1].c.waiting
    requires IsBusy(run[|run| - 1], FullBuildInProgress, [], run[|run| - 1].c.waiting)
    ensures IsRun(longer, false) && longer[|longer| - 1].mailbox == [] && longer[|longer| - 1].running == {}
    ensures var c := longer[|longer| - 1].c;
      c.state == FullBuildFailed && c.queued == [] && c.current == None && path in c.waiting && !c.alwaysRebuild
  {
    longer := Complete(run, BAD);
    assert Launched(run[|run| - 1].c, longer[|longer| - 1].c) == {};
  }

  lemma RebuildAfterFailure(run: seq<Sys>, path: Path, moduleId: Path) returns (longer: seq<Sys>)
    requires IsRun(run, false) && run[|run| - 1].mailbox == [] && run[|run| - 1].running == {}
    requires var c := run[|run| - 1].c;
      c.state == FullBuildFailed && c.queued == [] && c.current == None && path in c.waiting && !c.alwaysRebuild
    ensures IsRun(longer, false) && longer[|longer| - 1].mailbox == [] && longer[|longer| - 1].running == {}
    ensures var c := longer[|longer| - 1].c;
      c.state.Idle? && c.queued == [] && !c.stale && path in c.waiting
  {
    var failed := run[|run| - 1];
    longer := Deliver1(run, ModuleChanged(moduleId));
    var rebuild := longer[|longer| - 1];
    assert MergeFront(Rebuild(map[moduleId := Update]), []) == (Rebuild(map[moduleId := Update]), []);
    assert rebuild.c.spawned == failed.c.spawned + [Rebuild(map[moduleId := Update])] && rebuild.c.queued == [];
    assert Launched(failed.c, rebuild.c) == {|failed.c.spawned|} by {
      assert IsNew(failed.c, |failed.c.spawned|);
    }
    longer := Complete(longer, GOOD);
    assert Launched(rebuild.c, longer[|longer| - 1].c) == {};
  }
}
