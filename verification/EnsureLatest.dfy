/** The retry loop by which the dev engine waits for fresh output, running beside the coordinator. */
module EnsureLatest {
  import opened TaskInputs
  import opened BundlingTasks
  import opened Coordinator
  import opened CoordinatorProtocol
  import opened Wrappers

  /** Where one call of the loop is; `ahead` messages come before its request in the mailbox. */
  datatype Phase =
    | Sending
    | AwaitingReply(ahead: nat)
    | AwaitingFuture(future: nat, isEnsureFuture: bool)
    | Done(gaveUp: bool)

  /** `loopCount` as in the source; `lastFuture` is the future the loop awaited last. */
  datatype Loop = Loop(phase: Phase, loopCount: nat, lastFuture: Option<nat>)

  datatype Engine = Engine(s: Sys, l: Loop)

  const MAX_LOOPS := 100

  // ---- Steps: the loop, the tasks and the coordinator, and nobody else --------------------

  ghost predicate LoopSends(e: Engine, f: Engine) {
    && e.l.phase.Sending?
    && var count := e.l.loopCount + 1;
       if count > MAX_LOOPS then f == e.(l := e.l.(phase := Done(true)))
       else f == Engine(e.s.(mailbox := e.s.mailbox + [EnsureLatestBundleOutput]),
                        e.l.(phase := AwaitingReply(|e.s.mailbox|), loopCount := count))
  }

  /** The loop after one more message was handled in the state `c`. */
  function LoopAfter(l: Loop, c: Coord): Loop {
    if !l.phase.AwaitingReply? then l
    else if l.phase.ahead > 0 then l.(phase := AwaitingReply(l.phase.ahead - 1))
    else
      match EnsureLatest(c).1
      case None => l.(phase := Done(false))
      case Some(reply) =>
        l.(phase := AwaitingFuture(reply.future, reply.isEnsureFuture), lastFuture := Some(reply.future))
  }

  /** The coordinator handles a message; the reply to the loop's own request reaches the loop. */
  ghost predicate Delivers(e: Engine, f: Engine) {
    e.s.mailbox != [] && f == Engine(AfterHandling(e.s), LoopAfter(e.l, e.s.c))
  }

  ghost predicate TaskFinishes(e: Engine, f: Engine) {
    Finish(e.s, f.s) && f.l == e.l
  }

  /** A future resolves once its task has sent its completion. */
  ghost predicate LoopResumes(e: Engine, f: Engine) {
    && e.l.phase.AwaitingFuture? && e.l.phase.future !in e.s.running
    && f.s == e.s
    && f.l == e.l.(phase := if e.l.phase.isEnsureFuture then Done(false) else Sending)
  }

  ghost predicate Step(e: Engine, f: Engine) {
    LoopSends(e, f) || Delivers(e, f) || TaskFinishes(e, f) || LoopResumes(e, f)
  }

  // ---- The potential ----------------------------------------------------------------------

  function Flag(b: bool): nat {
    if b then 1 else 0
  }

  /** Queued tasks, plus the running task, plus one if changes wait for a full build. */
  function Backlog(c: Coord): nat {
    |c.queued| + Flag(c.current.Some?) + Flag(c.waiting != map[])
  }

  lemma ScheduledBacklog(c: Coord)
    requires Valid(c)
    ensures Backlog(Scheduled(c)) <= Backlog(c)
    ensures Scheduled(c).waiting == c.waiting
    ensures |Scheduled(c).queued| + Flag(Scheduled(c).current.Some?) <= |c.queued| + Flag(c.current.Some?)
    ensures Scheduled(c) != c ==> |Scheduled(c).queued| < |c.queued|
    ensures (c.state.Idle? || c.state.FullBuildFailed? || c.state.Failed?) && c.queued != [] ==>
      Scheduled(c).current.Some?
  {
  }

  /** Handling a completion strictly lowers the backlog. */
  lemma CompletionLowersBacklog(c: Coord, report: Report)
    requires Valid(c) && c.state.IsRunning()
    ensures Backlog(Completed(c, report)) < Backlog(c)
    ensures 2 * Backlog(Completed(c, report)) <= 2 * Backlog(c) - 2
  {
    if c.state.FullBuildInProgress? {
      if report.errorStage.None? && c.waiting != map[] {
        var idle := c.(current := None, stale := false, state := Idle, waiting := map[]);
        ScheduledBacklog(idle.(queued := idle.queued + [ChangeTask(idle, c.waiting)]));
      }
    } else {
      ScheduledBacklog(c.(current := None, stale := !report.hasGeneratedBundleOutput, state := Idle));
      if report.errorStage.Some? {
        ScheduledBacklog(c.(current := None, state := Failed(report.errorStage.value), stale := true));
      }
    }
  }

  /** The output is fresh with nothing queued, or the last build failed. */
  predicate Settled(c: Coord) {
    || (c.state.Idle? && c.queued == [] && !c.stale)
    || c.state.Failed? || c.state.FullBuildFailed?
  }

  lemma EnsureReply(c: Coord)
    requires Valid(c) && !c.state.Initialized?
    ensures var (d, reply) := EnsureLatest(c);
      match reply
      case None => d == c && Settled(c)
      case Some(r) =>
        && d.current == Some(r.future)
        && (!r.isEnsureFuture ==> Backlog(d) <= Backlog(c))
        && (r.isEnsureFuture ==>
              && c.current.None? && d.state.InProgress? && d.queued == []
              && d.spawned == c.spawned + [Rebuild(map[])] && Backlog(d) <= Backlog(c) + 1)
        && (c.current.Some? ==> d == c)
  {
    if c.state.Idle? {
      ScheduledBacklog(c);
      var with := c.(queued := c.queued + [Rebuild(map[])]);
      if c.queued == [] {
        assert with.queued[1..] == [];
        assert MergeFront(with.queued[0], with.queued[1..]) == (Rebuild(map[]), []);
      }
    }
  }

  /** The loop already knows that this completion is in the mailbox, so it no longer counts. */
  function Prepaid(e: Engine): nat {
    Flag(e.l.lastFuture.Some? && e.s.c.current == e.l.lastFuture)
  }

  /** The coordinator is on its way to settled: it is, or the awaited rebuild is its last task. */
  ghost predicate Settling(e: Engine) {
    || (Settled(e.s.c) && e.s.c.current.None?)
    || (e.s.c.state.InProgress? && e.s.c.queued == [] && e.s.c.current.Some?
        && e.s.c.current.value < |e.s.c.spawned| && e.s.c.spawned[e.s.c.current.value] == Rebuild(map[]))
  }

  /** The messages in the mailbox that are neither completions nor the loop's own request. */
  function Others(e: Engine): int {
    |e.s.mailbox| - Completions(e.s.mailbox) - Flag(e.l.phase.AwaitingReply?)
  }

  /** The work that can still keep the loop waiting. */
  function Pending(e: Engine): int {
    Backlog(e.s.c) + Others(e) - Prepaid(e)
  }

  /** The invariant of one call that began with `budget` pending. */
  ghost predicate Looping(e: Engine, budget: nat) {
    && OneTask(e.s) && FullBuildState(e.s) && FreshFlag(e.s) && HonestReports(e.s)
    && (e.l.lastFuture.Some? ==> e.l.lastFuture.value < |e.s.c.spawned|)
    && e.l.loopCount <= MAX_LOOPS
    && MailboxShape(e)
    && match e.l.phase
       case Sending =>
         && e.l.loopCount + Pending(e) <= budget && AwaitedIsDone(e)
         && (e.l.lastFuture.None? ==> e.l.loopCount == 0)
       case AwaitingReply(_) =>
         && 1 <= e.l.loopCount && e.l.loopCount - 1 + Pending(e) <= budget && AwaitedIsDone(e)
       case AwaitingFuture(f, false) => e.l.lastFuture == Some(f) && e.l.loopCount + Pending(e) <= budget
       case AwaitingFuture(f, true) => e.l.lastFuture == Some(f) && e.l.loopCount - 1 <= budget && Settling(e)
       case Done(gaveUp) =>
         e.l.loopCount - 1 <= budget && (if gaveUp then e.l.loopCount == MAX_LOOPS <= budget else Settling(e))
  }

  ghost predicate AwaitedIsDone(e: Engine) {
    Prepaid(e) == 1 ==> e.s.running == {}
  }

  predicate IsCompletion(m: Message) {
    m.BundleCompleted?
  }

  predicate OnlyCompletions(mailbox: seq<Message>) {
    forall m | m in mailbox :: IsCompletion(m)
  }

  /** Behind the loop's own request there are only completions, and once a first request was answered
      there are no others before it either. A completion the loop has awaited comes before the request. */
  ghost predicate MailboxShape(e: Engine) {
    match e.l.phase
    case AwaitingReply(ahead) =>
      && ahead < |e.s.mailbox| && e.s.mailbox[ahead] == EnsureLatestBundleOutput
      && OnlyCompletions(e.s.mailbox[ahead + 1..])
      && (e.l.lastFuture.Some? ==> OnlyCompletions(e.s.mailbox[..ahead]))
      && (Prepaid(e) == 1 ==> 0 < ahead)
    case Sending => e.l.lastFuture.Some? ==> OnlyCompletions(e.s.mailbox)
    case _ => OnlyCompletions(e.s.mailbox)
  }

  lemma {:induction false} CompletionsBound(mailbox: seq<Message>)
    ensures Completions(mailbox) <= |mailbox|
    ensures forall i | 0 <= i < |mailbox| && !mailbox[i].BundleCompleted? :: Completions(mailbox) < |mailbox|
  {
    if mailbox != [] {
      var n := |mailbox| - 1;
      CompletionsBound(mailbox[..n]);
      forall i | 0 <= i < n && !mailbox[i].BundleCompleted? ensures Completions(mailbox) < |mailbox| {
        assert mailbox[..n][i] == mailbox[i];
      }
    }
  }

  lemma PendingIsNatural(e: Engine)
    requires OneTask(e.s) && MailboxShape(e)
    ensures Pending(e) >= 0 && Others(e) >= 0
  {
    CompletionsBound(e.s.mailbox);
  }

  // ---- Every step keeps the invariant -----------------------------------------------------

  lemma SendKeepsLooping(e: Engine, f: Engine, budget: nat)
    requires Looping(e, budget) && LoopSends(e, f)
    ensures Looping(f, budget)
  {
    PendingIsNatural(e);
    if e.l.loopCount + 1 <= MAX_LOOPS {
      CompletionsPush(e.s.mailbox, EnsureLatestBundleOutput);
      assert f.s.mailbox[..|e.s.mailbox|] == e.s.mailbox && f.s.mailbox[|e.s.mailbox| + 1..] == [];
      if Prepaid(e) == 1 {
        assert e.s.mailbox != [];
      }
    }
  }

  lemma FinishKeepsShape(e: Engine, f: Engine)
    requires MailboxShape(e) && TaskFinishes(e, f)
    ensures MailboxShape(f) && Others(f) == Others(e)
  {
    var m := FinishSends(e, f);
    CompletionsPush(e.s.mailbox, m);
    if e.l.phase.AwaitingReply? {
      CompletionBehind(e.s.mailbox, m, e.l.phase.ahead);
    }
  }

  lemma FinishSends(e: Engine, f: Engine) returns (m: Message)
    requires TaskFinishes(e, f)
    ensures IsCompletion(m) && f.s.mailbox == e.s.mailbox + [m] && f.s.c == e.s.c && f.l == e.l
  {
    m := f.s.mailbox[|e.s.mailbox|];
  }

  lemma CompletionBehind(mailbox: seq<Message>, m: Message, ahead: nat)
    requires ahead < |mailbox| && IsCompletion(m)
    ensures (mailbox + [m])[..ahead] == mailbox[..ahead] && (mailbox + [m])[ahead] == mailbox[ahead]
    ensures OnlyCompletions(mailbox[ahead + 1..]) ==> OnlyCompletions((mailbox + [m])[ahead + 1..])
  {
    assert (mailbox + [m])[ahead + 1..] == mailbox[ahead + 1..] + [m];
  }

  lemma FinishKeepsLooping(e: Engine, f: Engine, budget: nat)
    requires Looping(e, budget) && TaskFinishes(e, f)
    ensures Looping(f, budget)
  {
    NextKeepsOneTask(e.s, f.s);
    NextKeepsFreshFlag(e.s, f.s);
    FinishKeepsShape(e, f);
  }

  lemma ResumeKeepsLooping(e: Engine, f: Engine, budget: nat)
    requires Looping(e, budget) && LoopResumes(e, f)
    ensures Looping(f, budget)
  {
  }

  /** Handling a message other than the loop's own request. */
  lemma PopKeepsShape(e: Engine, f: Engine)
    requires MailboxShape(e) && Delivers(e, f) && (e.l.phase.AwaitingReply? ==> e.l.phase.ahead > 0)
    requires Prepaid(f) == 0
    ensures MailboxShape(f) && f.l.lastFuture == e.l.lastFuture && f.l.loopCount == e.l.loopCount
    ensures Others(f) == Others(e) - if IsCompletion(e.s.mailbox[0]) then 0 else 1
  {
    CompletionsPop(e.s.mailbox);
    if e.l.phase.AwaitingReply? {
      var ahead := e.l.phase.ahead;
      assert f.s.mailbox[ahead..] == e.s.mailbox[ahead + 1..];
      assert f.s.mailbox[..ahead - 1] == e.s.mailbox[..ahead][1..];
    }
  }

  /** Handling a completion. */
  lemma CompletionKeepsLooping(e: Engine, f: Engine, budget: nat)
    requires Looping(e, budget) && Delivers(e, f) && e.s.mailbox[0].BundleCompleted?
    ensures Looping(f, budget)
  {
    assert Deliver(e.s, f.s);
    NextKeepsOneTask(e.s, f.s);
    NextKeepsFreshFlag(e.s, f.s);
    var m := e.s.mailbox[0];
    CompletionsPop(e.s.mailbox);
    CompletionLowersBacklog(e.s.c, m.report);
    CompletedBookkeeping(e.s.c, m.report);
    assert Prepaid(f) == 0;
    PopKeepsShape(e, f);
    if (e.l.phase.AwaitingFuture? && e.l.phase.isEnsureFuture) || (e.l.phase.Done? && !e.l.phase.gaveUp) {
      SettlingCompletes(e, m.report);
    }
  }

  /** A message that is no completion raises the backlog by at most one. */
  lemma MessageRaisesBacklog(c: Coord, m: Message)
    requires Valid(c) && !c.state.Initialized? && !m.Close? && !m.BundleCompleted?
    ensures Backlog(Handle(c, m)) <= Backlog(c) + 1
  {
    match m
    case WatchEvent(events) =>
      var changes := Collect(events);
      if c.state.FullBuildFailed? {
        ScheduledBacklog(c.(waiting := map[], queued := c.queued + [FullBuild]));
      } else {
        ScheduledBacklog(c.(queued := c.queued + [ChangeTask(c, changes)]));
      }
    case ScheduleBuildIfStale => ScheduledBacklog(c);
    case GetState =>
    case EnsureLatestBundleOutput => EnsureReply(c);
    case TriggerFullBuild => ScheduledBacklog(c.(queued := [FullBuild]));
    case ModuleChanged(moduleId) =>
      ScheduledBacklog(c.(queued := c.queued + [Rebuild(map[moduleId := Update])], stale := true));
  }

  /** Handling what others had sent before the call: it comes before the loop's first reply. */
  lemma OtherKeepsLooping(e: Engine, f: Engine, budget: nat)
    requires Looping(e, budget) && Delivers(e, f) && !e.s.mailbox[0].BundleCompleted?
    requires e.l.phase.AwaitingReply? ==> e.l.phase.ahead > 0
    ensures Looping(f, budget) && e.l.lastFuture.None?
  {
    var m := e.s.mailbox[0];
    assert Deliver(e.s, f.s);
    NextKeepsOneTask(e.s, f.s);
    NextKeepsFreshFlag(e.s, f.s);
    assert m in e.s.mailbox && !IsCompletion(m);
    assert e.l.lastFuture.None? by {
      if e.l.phase.AwaitingReply? {
        assert m == e.s.mailbox[..e.l.phase.ahead][0];
      }
    }
    PopKeepsShape(e, f);
    MessageRaisesBacklog(e.s.c, m);
  }

  lemma SettlingCompletes(e: Engine, report: Report)
    requires OneTask(e.s) && HonestReports(e.s) && Settling(e) && e.s.c.current.Some?
    requires BundleCompleted(report) in e.s.mailbox
    ensures Settled(Completed(e.s.c, report)) && Completed(e.s.c, report).current.None?
  {
    var env :| report == ReportOf(e.s.c.spawned[e.s.c.current.value], env);
    if report.errorStage.None? {
      SuccessWithoutOutput(Rebuild(map[]), env);
    }
  }

  predicate IsOwnRequest(e: Engine) {
    e.l.phase == AwaitingReply(0)
  }

  /** Handling the loop's own request. */
  lemma RequestKeepsLooping(e: Engine, f: Engine, budget: nat)
    requires Looping(e, budget) && Delivers(e, f) && IsOwnRequest(e)
    ensures Looping(f, budget)
  {
    assert Deliver(e.s, f.s);
    NextKeepsOneTask(e.s, f.s);
    NextKeepsFreshFlag(e.s, f.s);
    EnsureReply(e.s.c);
    CompletionsPop(e.s.mailbox);
    PendingIsNatural(e);
    assert e.s.mailbox[1..] == f.s.mailbox;
  }

  lemma StepKeepsLooping(e: Engine, f: Engine, budget: nat)
    requires Looping(e, budget) && Step(e, f)
    ensures Looping(f, budget)
  {
    if LoopSends(e, f) {
      SendKeepsLooping(e, f, budget);
    } else if TaskFinishes(e, f) {
      FinishKeepsLooping(e, f, budget);
    } else if LoopResumes(e, f) {
      ResumeKeepsLooping(e, f, budget);
    } else if IsOwnRequest(e) {
      RequestKeepsLooping(e, f, budget);
    } else if e.s.mailbox[0].BundleCompleted? {
      CompletionKeepsLooping(e, f, budget);
    } else {
      OtherKeepsLooping(e, f, budget);
    }
  }

  // ---- The bound, termination and the outcome ---------------------------------------------

  /** A call may start at any time, whatever is in the channel; then nobody else sends. */
  ghost predicate CallStarts(e: Engine) {
    OneTask(e.s) && FullBuildState(e.s) && FreshFlag(e.s) && HonestReports(e.s) && e.l == Loop(Sending, 0, None)
  }

  /** What is pending when the call starts: the backlog, and the messages that may raise it. */
  function Budget(e: Engine): (budget: nat)
    ensures e.l.phase.Sending? && e.l.lastFuture.None? ==> budget == Pending(e)
  {
    CompletionsBound(e.s.mailbox);
    Backlog(e.s.c) + |e.s.mailbox| - Completions(e.s.mailbox)
  }

  /** Every reachable state before close is one. */
  lemma CallMayStartAnyTime(run: seq<Sys>, alwaysRebuild: bool, i: nat)
    requires IsRun(run, alwaysRebuild) && i < |run|
    ensures CallStarts(Engine(run[i], Loop(Sending, 0, None)))
  {
    RunHasOneTask(run, alwaysRebuild, i);
    RunHasFreshFlag(run, alwaysRebuild, i);
  }

  ghost predicate IsCall(run: seq<Engine>) {
    && |run| > 0 && CallStarts(run[0])
    && forall i | 0 <= i < |run| - 1 :: StepOf(run, i)
  }

  ghost predicate StepOf(run: seq<Engine>, i: nat)
    requires i + 1 < |run|
  {
    Step(run[i], run[i + 1])
  }

  lemma {:induction false} CallKeepsLooping(run: seq<Engine>, i: nat)
    requires IsCall(run) && i < |run|
    ensures Looping(run[i], Budget(run[0]))
  {
    if i > 0 {
      CallKeepsLooping(run, i - 1);
      assert StepOf(run, i - 1);
      StepKeepsLooping(run[i - 1], run[i], Budget(run[0]));
    }
  }

  /** The call makes at most one request more than the backlog and the messages it started with. */
  lemma LoopCountIsBounded(run: seq<Engine>, i: nat)
    requires IsCall(run) && i < |run|
    ensures run[i].l.loopCount <= Budget(run[0]) + 1
    ensures Budget(run[0]) < 100 ==> run[i].l.phase != Done(true)
  {
    CallKeepsLooping(run, i);
  }

  /** Work left in tasks and messages. */
  function TaskWork(e: Engine): int {
    3 * Others(e) + 2 * Backlog(e.s.c) - Flag(e.s.c.current.Some? && e.s.running == {})
  }

  function LoopWork(e: Engine, budget: nat): int {
    6 * (budget + 1 - e.l.loopCount) +
    match e.l.phase
    case Sending => 0
    case AwaitingReply(_) => 4
    case AwaitingFuture(_, _) => 1
    case Done(_) => -6 * (budget + 1 - e.l.loopCount)
  }

  lemma WorkIsNatural(e: Engine, budget: nat)
    requires Looping(e, budget)
    ensures TaskWork(e) >= 0 && LoopWork(e, budget) >= 0
  {
    PendingIsNatural(e);
  }

  lemma CompletionWork(e: Engine, f: Engine, budget: nat)
    requires Looping(e, budget) && Looping(f, budget) && Delivers(e, f) && e.s.mailbox[0].BundleCompleted?
    ensures TaskWork(f) + LoopWork(f, budget) < TaskWork(e) + LoopWork(e, budget)
  {
    CompletionsPop(e.s.mailbox);
    CompletionLowersBacklog(e.s.c, e.s.mailbox[0].report);
    assert !IsOwnRequest(e);
  }

  lemma OtherWork(e: Engine, f: Engine, budget: nat)
    requires Looping(e, budget) && Looping(f, budget) && Delivers(e, f) && !e.s.mailbox[0].BundleCompleted?
    requires !IsOwnRequest(e)
    ensures TaskWork(f) + LoopWork(f, budget) < TaskWork(e) + LoopWork(e, budget)
  {
    var m := e.s.mailbox[0];
    assert m in e.s.mailbox;
    CompletionsPop(e.s.mailbox);
    MessageRaisesBacklog(e.s.c, m);
    HandleBookkeeping(e.s.c, m);
    if e.s.c.current.Some? {
      assert Launched(e.s.c, f.s.c) == {};
      assert f.s.running == e.s.running;
    }
  }

  lemma RequestWork(e: Engine, f: Engine, budget: nat)
    requires Looping(e, budget) && Looping(f, budget) && Delivers(e, f) && IsOwnRequest(e)
    ensures TaskWork(f) + LoopWork(f, budget) < TaskWork(e) + LoopWork(e, budget)
  {
    EnsureReply(e.s.c);
    CompletionsPop(e.s.mailbox);
    if e.s.c.current.Some? {
      assert f.s.c == e.s.c && Launched(e.s.c, f.s.c) == {};
      assert f.s.running == e.s.running;
    }
  }

  lemma DeliveryWork(e: Engine, f: Engine, budget: nat)
    requires Looping(e, budget) && Looping(f, budget) && Delivers(e, f)
    ensures TaskWork(f) + LoopWork(f, budget) < TaskWork(e) + LoopWork(e, budget)
  {
    if IsOwnRequest(e) {
      RequestWork(e, f, budget);
    } else if e.s.mailbox[0].BundleCompleted? {
      CompletionWork(e, f, budget);
    } else {
      OtherWork(e, f, budget);
    }
  }

  lemma SendKeepsTaskWork(e: Engine, f: Engine)
    requires LoopSends(e, f)
    ensures TaskWork(f) == TaskWork(e)
  {
    CompletionsPush(e.s.mailbox, EnsureLatestBundleOutput);
  }

  lemma SendWork(e: Engine, f: Engine, budget: nat)
    requires Looping(e, budget) && LoopSends(e, f)
    ensures TaskWork(f) + LoopWork(f, budget) < TaskWork(e) + LoopWork(e, budget)
  {
    PendingIsNatural(e);
    assert e.l.loopCount <= budget;
    SendKeepsTaskWork(e, f);
  }

  lemma FinishWork(e: Engine, f: Engine, budget: nat)
    requires Looping(e, budget) && TaskFinishes(e, f)
    ensures TaskWork(f) + LoopWork(f, budget) < TaskWork(e) + LoopWork(e, budget)
  {
    FinishKeepsShape(e, f);
  }

  /** Every step does some of the remaining work, so the call cannot go on for ever. */
  lemma StepDoesWork(e: Engine, f: Engine, budget: nat)
    requires Looping(e, budget) && Step(e, f)
    ensures 0 <= TaskWork(e) + LoopWork(e, budget)
    ensures TaskWork(f) + LoopWork(f, budget) < TaskWork(e) + LoopWork(e, budget)
  {
    WorkIsNatural(e, budget);
    if LoopSends(e, f) {
      SendWork(e, f, budget);
    } else if TaskFinishes(e, f) {
      FinishWork(e, f, budget);
    } else if Delivers(e, f) {
      StepKeepsLooping(e, f, budget);
      DeliveryWork(e, f, budget);
    }
  }

  /** A call that is not done can always take a step. */
  lemma NeverStuck(e: Engine, budget: nat)
    requires Looping(e, budget) && !e.l.phase.Done?
    ensures exists f :: Step(e, f)
  {
    match e.l.phase
    case Sending =>
      var f := if e.l.loopCount + 1 > MAX_LOOPS then e.(l := e.l.(phase := Done(true)))
               else Engine(e.s.(mailbox := e.s.mailbox + [EnsureLatestBundleOutput]),
                           e.l.(phase := AwaitingReply(|e.s.mailbox|), loopCount := e.l.loopCount + 1));
      assert LoopSends(e, f);
      assert Step(e, f);
    case AwaitingReply(_) =>
      var f := Engine(AfterHandling(e.s), LoopAfter(e.l, e.s.c));
      assert Delivers(e, f);
      assert Step(e, f);
    case AwaitingFuture(future, isEnsureFuture) =>
      if future in e.s.running {
        var env := Environment(false, {}, {}, false, true, true, true);
        var t := e.s.(mailbox := e.s.mailbox + [BundleCompleted(ReportOf(e.s.c.spawned[future], env))],
                      running := e.s.running - {future});
        assert Finish(e.s, t);
        assert TaskFinishes(e, Engine(t, e.l));
        assert Step(e, Engine(t, e.l));
      } else {
        var f := e.(l := e.l.(phase := if isEnsureFuture then Done(false) else Sending));
        assert LoopResumes(e, f);
        assert Step(e, f);
      }
  }

  /** Once a call has ended without giving up and its messages are handled, the output is fresh with
      nothing queued, unless a build failed. */
  lemma EndsSettled(run: seq<Engine>, i: nat)
    requires IsCall(run) && i < |run|
    requires run[i].l.phase == Done(false) && run[i].s.mailbox == [] && run[i].s.running == {}
    ensures Settled(run[i].s.c)
  {
    CallKeepsLooping(run, i);
  }
}
