/** The bundle coordinator: one running task, two places where changes wait, and a staleness flag. */
module Coordinator {
  import opened TaskInputs
  import opened BundlingTasks
  import opened Wrappers

  datatype State =
    | Initialized
    | Idle
    | FullBuildInProgress
    | FullBuildFailed
    | InProgress
    | Failed(lastErrorStage: ErrorStage)
  {
    predicate IsRunning() {
      FullBuildInProgress? || InProgress?
    }
  }

  datatype Message =
    | WatchEvent(events: seq<(Path, ChangeKind)>)
    | BundleCompleted(report: Report)
    | ScheduleBuildIfStale
    | GetState
    | EnsureLatestBundleOutput
    | TriggerFullBuild
    | ModuleChanged(moduleId: Path)
    | Close

  /** The coordinator's fields as one value. `spawned` lists every task input handed to the runtime;
      a bundling future is identified by its position in that list. */
  datatype Coord = Coord(
    state: State,
    waiting: Changes,
    queued: seq<TaskInput>,
    stale: bool,
    current: Option<nat>,
    spawned: seq<TaskInput>,
    alwaysRebuild: bool)

  /** The reply to `EnsureLatestBundleOutput`. */
  datatype Ensured = Ensured(future: nat, isEnsureFuture: bool)

  function New(alwaysRebuild: bool): Coord {
    Coord(Initialized, map[], [], true, None, [], alwaysRebuild)
  }

  // ---- What each handler does -------------------------------------------------------------

  /** A future is present exactly while a task runs, and it is the one spawned last. */
  predicate Consistent(c: Coord) {
    c.current == if c.state.IsRunning() && |c.spawned| > 0 then Some(|c.spawned| - 1) else None
  }

  predicate Valid(c: Coord) {
    Consistent(c) && (c.state.IsRunning() ==> |c.spawned| > 0)
  }

  function Spawn(c: Coord, task: TaskInput, rest: seq<TaskInput>): Coord {
    c.(state := if task.RequiresFullRebuild() then FullBuildInProgress else InProgress,
       queued := rest,
       current := Some(|c.spawned|),
       spawned := c.spawned + [task])
  }

  function Scheduled(c: Coord): Coord {
    if (c.state.Idle? || c.state.FullBuildFailed? || c.state.Failed?) && c.queued != [] then
      var (task, rest) := MergeFront(c.queued[0], c.queued[1..]);
      Spawn(c, task, rest)
    else c
  }

  function Enqueued(c: Coord, task: TaskInput): Coord {
    Scheduled(c.(queued := c.queued + [task]))
  }

  function ChangeTask(c: Coord, changes: Changes): TaskInput {
    if c.alwaysRebuild || c.state == Failed(RebuildStage) then HmrRebuild(changes) else Hmr(changes)
  }

  function FilesChanged(c: Coord, changes: Changes): Coord {
    if changes == map[] then c else
    match c.state
    case FullBuildInProgress => c.(waiting := c.waiting + changes)
    case Idle => Enqueued(c, ChangeTask(c, changes))
    case InProgress => Enqueued(c, ChangeTask(c, changes))
    case Failed(_) => Enqueued(c, ChangeTask(c, changes))
    case FullBuildFailed => Enqueued(c.(waiting := map[]), FullBuild)
    case Initialized => c
  }

  function Completed(c: Coord, report: Report): Coord {
    match c.state
    case FullBuildInProgress =>
      var done := c.(current := None);
      if report.errorStage.Some? then done.(state := FullBuildFailed, stale := true)
      else
        var idle := done.(stale := false, state := Idle);
        FilesChanged(idle.(waiting := map[]), idle.waiting)
    case InProgress =>
      var done := c.(current := None);
      if report.errorStage.Some? then Scheduled(done.(state := Failed(report.errorStage.value), stale := true))
      else Scheduled(done.(stale := !report.hasGeneratedBundleOutput, state := Idle))
    case _ => c
  }

  function EnsureLatest(c: Coord): (Coord, Option<Ensured>) {
    match c.state
    case Initialized => (c, None)
    case Idle =>
      if c.queued == [] then
        if c.stale then
          var next := Enqueued(c, Rebuild(map[]));
          (next, if next.current.Some? then Some(Ensured(next.current.value, true)) else None)
        else (c, None)
      else
        var next := Scheduled(c);
        (next, if next.current.Some? then Some(Ensured(next.current.value, false)) else None)
    case FullBuildInProgress => (c, if c.current.Some? then Some(Ensured(c.current.value, false)) else None)
    case InProgress => (c, if c.current.Some? then Some(Ensured(c.current.value, false)) else None)
    case FullBuildFailed => (c, None)
    case Failed(_) => (c, None)
  }

  function FullBuildTriggered(c: Coord): Coord {
    Scheduled(c.(queued := [FullBuild]))
  }

  function ModuleHasChanged(c: Coord, moduleId: Path): Coord {
    Scheduled(c.(queued := c.queued + [Rebuild(map[moduleId := Update])], stale := true))
  }

  /** Later events of one batch replace earlier ones for the same path. */
  function Collect(events: seq<(Path, ChangeKind)>): (changes: Changes)
    ensures forall path :: path in changes <==> exists i | 0 <= i < |events| :: events[i].0 == path
  {
    if events == [] then map[]
    else Collect(events[..|events| - 1])[events[|events| - 1].0 := events[|events| - 1].1]
  }

  function Handle(c: Coord, m: Message): Coord {
    match m
    case WatchEvent(events) => FilesChanged(c, Collect(events))
    case BundleCompleted(report) => Completed(c, report)
    case ScheduleBuildIfStale => Scheduled(c)
    case GetState => c
    case EnsureLatestBundleOutput => EnsureLatest(c).0
    case TriggerFullBuild => FullBuildTriggered(c)
    case ModuleChanged(moduleId) => ModuleHasChanged(c, moduleId)
    case Close => c.(current := None)
  }

  /** What `run` does before its first message. */
  function Started(c: Coord): Coord
  {
    if c.state.Initialized? then Scheduled(c.(queued := c.queued + [FullBuild], state := Idle)) else c
  }

  /** Handle messages until one of them closes the coordinator. */
  function HandleAll(c: Coord, messages: seq<Message>): Coord
    decreases |messages|
  {
    if messages == [] then c
    else if messages[0].Close? then Handle(c, Close)
    else HandleAll(Handle(c, messages[0]), messages[1..])
  }

  // ---- The coordinator object -------------------------------------------------------------

  class BundleCoordinator {
    var state: State
    var waiting: Changes
    var queuedTasks: seq<TaskInput>
    var hasStaleBundleOutput: bool
    var currentBundlingFuture: Option<nat>
    var spawnedTasks: seq<TaskInput>
    const alwaysRebuild: bool

    function View(): Coord
      reads this
    {
      Coord(state, waiting, queuedTasks, hasStaleBundleOutput, currentBundlingFuture, spawnedTasks, alwaysRebuild)
    }

    constructor (always: bool)
      ensures View() == New(always)
    {
      state, waiting, queuedTasks := Initialized, map[], [];
      hasStaleBundleOutput, currentBundlingFuture, spawnedTasks := true, None, [];
      alwaysRebuild := always;
    }

    method ScheduleIfStale() returns (future: Option<nat>)
      requires Valid(View())
      modifies this
      ensures View() == Scheduled(old(View()))
      ensures Valid(View())
      ensures future == View().current
    {
      if state.Initialized? {
        return None;
      }
      if state.IsRunning() {
        // The source unwraps the future here.
        return Some(currentBundlingFuture.value);
      }
      if queuedTasks == [] {
        return None;
      }
      var task := queuedTasks[0];
      var rest := queuedTasks[1..];
      while rest != [] && task.IsMergeableWith(rest[0])
        invariant MergeFront(task, rest) == MergeFront(queuedTasks[0], queuedTasks[1..])
        decreases |rest|
      {
        task, rest := task.MergeWith(rest[0]), rest[1..];
      }
      queuedTasks := rest;
      state := if task.RequiresFullRebuild() then FullBuildInProgress else InProgress;
      currentBundlingFuture := Some(|spawnedTasks|);
      spawnedTasks := spawnedTasks + [task];
      future := currentBundlingFuture;
    }

    method HandleFileChanges(changes: Changes)
      requires Valid(View())
      modifies this
      ensures View() == FilesChanged(old(View()), changes)
      ensures Valid(View())
    {
      if changes == map[] {
        return;
      }
      match state {
        case FullBuildInProgress =>
          waiting := waiting + changes;
        case Idle | InProgress =>
          queuedTasks := queuedTasks + [if alwaysRebuild then HmrRebuild(changes) else Hmr(changes)];
          var _ := ScheduleIfStale();
        case Failed(lastErrorStage) =>
          var forceRebuild := lastErrorStage == RebuildStage;
          queuedTasks := queuedTasks + [if forceRebuild || alwaysRebuild then HmrRebuild(changes) else Hmr(changes)];
          var _ := ScheduleIfStale();
        case FullBuildFailed =>
          waiting := map[];
          queuedTasks := queuedTasks + [FullBuild];
          var _ := ScheduleIfStale();
        case Initialized =>
      }
    }

    method HandleWatchEvent(events: seq<(Path, ChangeKind)>)
      requires Valid(View())
      modifies this
      ensures View() == FilesChanged(old(View()), Collect(events)) && Valid(View())
    {
      var changes: Changes := map[];
      for i := 0 to |events|
        invariant changes == Collect(events[..i])
      {
        assert events[..i + 1][..i] == events[..i];
        changes := changes[events[i].0 := events[i].1];
      }
      assert events[..|events|] == events;
      HandleFileChanges(changes);
    }

    method HandleBundleCompleted(report: Report)
      requires Valid(View())
      modifies this
      ensures View() == Completed(old(View()), report)
      ensures Valid(View())
    {
      match state {
        case Initialized | Failed(_) | FullBuildFailed | Idle =>
        case FullBuildInProgress =>
          currentBundlingFuture := None;
          if report.errorStage.Some? {
            state := FullBuildFailed;
            hasStaleBundleOutput := true;
          } else {
            hasStaleBundleOutput := false;
            state := Idle;
            if waiting != map[] {
              var queuedChanges := waiting;
              waiting := map[];
              HandleFileChanges(queuedChanges);
            }
          }
        case InProgress =>
          currentBundlingFuture := None;
          if report.errorStage.Some? {
            state := Failed(report.errorStage.value);
            hasStaleBundleOutput := true;
          } else {
            hasStaleBundleOutput := !report.hasGeneratedBundleOutput;
            state := Idle;
          }
          var _ := ScheduleIfStale();
      }
    }

    method EnsureLatestOutput() returns (reply: Option<Ensured>)
      requires Valid(View())
      modifies this
      ensures (View(), reply) == EnsureLatest(old(View()))
      ensures Valid(View())
    {
      match state {
        case Initialized | FullBuildFailed | Failed(_) =>
          reply := None;
        case Idle =>
          if queuedTasks == [] {
            if hasStaleBundleOutput {
              queuedTasks := queuedTasks + [Rebuild(map[])];
              var future := ScheduleIfStale();
              reply := if future.Some? then Some(Ensured(future.value, true)) else None;
            } else {
              reply := None;
            }
          } else {
            var future := ScheduleIfStale();
            reply := if future.Some? then Some(Ensured(future.value, false)) else None;
          }
        case FullBuildInProgress | InProgress =>
          // The source unwraps the future here.
          reply := Some(Ensured(currentBundlingFuture.value, false));
      }
    }

    method TriggerFull()
      requires Valid(View())
      modifies this
      ensures View() == FullBuildTriggered(old(View())) && Valid(View())
    {
      queuedTasks := [];
      queuedTasks := queuedTasks + [FullBuild];
      var _ := ScheduleIfStale();
    }

    method HandleModuleChanged(moduleId: Path)
      requires Valid(View())
      modifies this
      ensures View() == ModuleHasChanged(old(View()), moduleId) && Valid(View())
    {
      queuedTasks := queuedTasks + [Rebuild(map[moduleId := Update])];
      hasStaleBundleOutput := true;
      var _ := ScheduleIfStale();
    }

    /** The message loop, over the messages the channel delivers before it is closed. */
    method Run(messages: seq<Message>)
      requires View() == New(alwaysRebuild)
      modifies this
      ensures View() == HandleAll(Started(New(alwaysRebuild)), messages)
    {
      queuedTasks := queuedTasks + [FullBuild];
      state := Idle;
      var _ := ScheduleIfStale();
      assert View() == Started(New(alwaysRebuild));
      ghost var start := View();
      for i := 0 to |messages|
        invariant Valid(View())
        invariant HandleAll(start, messages) == HandleAll(View(), messages[i..])
      {
        assert messages[i..][1..] == messages[i + 1..];
        match messages[i] {
          case WatchEvent(events) => HandleWatchEvent(events);
          case BundleCompleted(report) => HandleBundleCompleted(report);
          case ScheduleBuildIfStale => var _ := ScheduleIfStale();
          case GetState =>
          case EnsureLatestBundleOutput => var _ := EnsureLatestOutput();
          case TriggerFullBuild => TriggerFull();
          case ModuleChanged(moduleId) => HandleModuleChanged(moduleId);
          case Close =>
            currentBundlingFuture := None;
            return;
        }
      }
    }
  }

  // ---- No accepted change is lost ---------------------------------------------------------

  /** A change of `path` accepted when `since` tasks had been spawned is still accounted for: it
      waits, or a queued task covers it, or a task spawned afterwards did. */
  predicate Accounted(c: Coord, path: Path, since: nat) {
    || path in c.waiting
    || AnyCovers(c.queued, path)
    || exists i | since <= i < |c.spawned| :: c.spawned[i].Covers(path)
  }

  lemma ScheduleKeepsAccount(c: Coord, path: Path, since: nat)
    requires Accounted(c, path, since) && since <= |c.spawned|
    ensures Accounted(Scheduled(c), path, since) && since <= |Scheduled(c).spawned|
  {
    var next := Scheduled(c);
    if next != c {
      if i :| since <= i < |c.spawned| && c.spawned[i].Covers(path) {
        assert next.spawned[i].Covers(path);
      } else if path !in c.waiting {
        assert c.queued == [c.queued[0]] + c.queued[1..];
        MergeFrontKeepsCoverage(c.queued[0], c.queued[1..], path);
        if MergeFront(c.queued[0], c.queued[1..]).0.Covers(path) {
          assert next.spawned[|c.spawned|].Covers(path);
        }
      }
    }
  }

  lemma EnqueueKeepsAccount(c: Coord, task: TaskInput, path: Path, since: nat)
    requires since <= |c.spawned|
    requires Accounted(c, path, since) || task.Covers(path)
    ensures Accounted(Enqueued(c, task), path, since)
  {
    var with := c.(queued := c.queued + [task]);
    if AnyCovers(c.queued, path) {
      var t :| t in c.queued && t.Covers(path);
      assert t in with.queued;
    }
    assert task in with.queued;
    ScheduleKeepsAccount(with, path, since);
  }

  lemma FilesChangedKeepsAccount(c: Coord, changes: Changes, path: Path, since: nat)
    requires since <= |c.spawned|
    requires Accounted(c, path, since) || (path in changes && !c.state.Initialized?)
    ensures Accounted(FilesChanged(c, changes), path, since)
  {
    if changes != map[] && !c.state.Initialized? && !c.state.FullBuildInProgress? {
      if c.state.FullBuildFailed? {
        EnqueueKeepsAccount(c.(waiting := map[]), FullBuild, path, since);
      } else {
        EnqueueKeepsAccount(c, ChangeTask(c, changes), path, since);
      }
    }
  }

  lemma CompletedKeepsAccount(c: Coord, report: Report, path: Path, since: nat)
    requires since <= |c.spawned| && Accounted(c, path, since)
    ensures Accounted(Completed(c, report), path, since)
  {
    var done := c.(current := None);
    if c.state.FullBuildInProgress? && report.errorStage.None? {
      var idle := done.(stale := false, state := Idle);
      FilesChangedKeepsAccount(idle.(waiting := map[]), idle.waiting, path, since);
    } else if c.state.InProgress? {
      if report.errorStage.Some? {
        ScheduleKeepsAccount(done.(state := Failed(report.errorStage.value), stale := true), path, since);
      } else {
        ScheduleKeepsAccount(done.(stale := !report.hasGeneratedBundleOutput, state := Idle), path, since);
      }
    }
  }

  lemma HandleKeepsAccount(c: Coord, m: Message, path: Path, since: nat)
    requires since <= |c.spawned| && Accounted(c, path, since)
    ensures Accounted(Handle(c, m), path, since)
  {
    match m
    case WatchEvent(events) => FilesChangedKeepsAccount(c, Collect(events), path, since);
    case BundleCompleted(report) => CompletedKeepsAccount(c, report, path, since);
    case ScheduleBuildIfStale => ScheduleKeepsAccount(c, path, since);
    case GetState =>
    case EnsureLatestBundleOutput =>
      EnqueueKeepsAccount(c, Rebuild(map[]), path, since);
      ScheduleKeepsAccount(c, path, since);
    case TriggerFullBuild =>
      var with := c.(queued := [FullBuild]);
      assert FullBuild in with.queued && FullBuild.Covers(path);
      ScheduleKeepsAccount(with, path, since);
    case ModuleChanged(moduleId) =>
      EnqueueKeepsAccount(c.(stale := true), Rebuild(map[moduleId := Update]), path, since);
    case Close =>
  }

  lemma FilesChangedOnlySpawns(c: Coord, changes: Changes)
    ensures |c.spawned| <= |FilesChanged(c, changes).spawned|
  {
  }

  lemma HandleOnlySpawns(c: Coord, m: Message)
    ensures |c.spawned| <= |Handle(c, m).spawned|
  {
    match m
    case WatchEvent(events) => FilesChangedOnlySpawns(c, Collect(events));
    case BundleCompleted(report) =>
      FilesChangedOnlySpawns(c.(current := None, stale := false, state := Idle, waiting := map[]), c.waiting);
    case _ =>
  }

  /** Once accounted for, a change stays accounted for whatever messages follow, in any order. */
  lemma {:induction false} AccountedForever(c: Coord, messages: seq<Message>, path: Path, since: nat)
    requires since <= |c.spawned| && Accounted(c, path, since)
    ensures Accounted(HandleAll(c, messages), path, since)
    decreases |messages|
  {
    if messages != [] {
      HandleKeepsAccount(c, messages[0], path, since);
      HandleOnlySpawns(c, messages[0]);
      if !messages[0].Close? {
        AccountedForever(Handle(c, messages[0]), messages[1..], path, since);
      }
    }
  }

  /** Every file change the running coordinator accepts stays accounted for in every run. */
  lemma NoChangeIsLost(c: Coord, events: seq<(Path, ChangeKind)>, later: seq<Message>, i: nat)
    requires !c.state.Initialized? && i < |events|
    ensures Accounted(HandleAll(c, [WatchEvent(events)] + later), events[i].0, |c.spawned|)
  {
    var path, messages := events[i].0, [WatchEvent(events)] + later;
    assert path in Collect(events);
    FilesChangedKeepsAccount(c, Collect(events), path, |c.spawned|);
    HandleOnlySpawns(c, WatchEvent(events));
    assert messages[1..] == later;
    AccountedForever(Handle(c, messages[0]), later, path, |c.spawned|);
  }

  /** The same holds for a module change reported by a lazy compile. */
  lemma NoModuleChangeIsLost(c: Coord, moduleId: Path, later: seq<Message>)
    ensures Accounted(HandleAll(c, [ModuleChanged(moduleId)] + later), moduleId, |c.spawned|)
  {
    var messages := [ModuleChanged(moduleId)] + later;
    EnqueueKeepsAccount(c.(stale := true), Rebuild(map[moduleId := Update]), moduleId, |c.spawned|);
    HandleOnlySpawns(c, messages[0]);
    assert messages[1..] == later;
    AccountedForever(Handle(c, messages[0]), later, moduleId, |c.spawned|);
  }
}
