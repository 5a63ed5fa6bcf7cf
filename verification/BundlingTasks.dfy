/** One bundling task: the order of its stages, and the report it sends when it is done. */
module BundlingTasks {
  import opened PendingPayloads
  import opened TaskInputs
  import opened Wrappers

  datatype ErrorStage = HmrStage | RebuildStage

  /** What a finished task tells the coordinator. */
  datatype Report = Report(errorStage: Option<ErrorStage>, hasGeneratedBundleOutput: bool)

  /** Everything a task asks of the bundler, its plugins and its options. */
  datatype Environment = Environment(
    hasLastBundle: bool,
    failingHooks: set<Path>,
    tsconfigs: set<Path>,
    hasLostHmrUpdate: bool,
    hmrSucceeds: bool,
    hasHmrCallback: bool,
    rebuildSucceeds: bool)

  predicate WatchChangeFails(input: TaskInput, env: Environment) {
    env.hasLastBundle && input.ChangedFiles().Keys * env.failingHooks != {}
  }

  predicate MustReload(input: TaskInput, env: Environment) {
    input.ChangedFiles().Keys * env.tsconfigs != {} || env.hasLostHmrUpdate
  }

  /** The input once a reload reason has upgraded it. */
  function EffectiveInput(input: TaskInput, env: Environment): TaskInput {
    if MustReload(input, env) then FullBuild else input
  }

  predicate HmrStageFails(input: TaskInput, env: Environment) {
    input.RequiresHmrUpdate() && !env.hmrSucceeds
  }

  predicate ReachesRebuild(input: TaskInput, env: Environment) {
    && !WatchChangeFails(input, env)
    && var effective := EffectiveInput(input, env);
       effective.RequiresRebuild() && (HmrStageFails(effective, env) ==> env.hasHmrCallback)
  }

  /** The report of a task, stage by stage. */
  function ReportOf(input: TaskInput, env: Environment): Report {
    var rebuilt := ReachesRebuild(input, env);
    Report(
      if rebuilt && !env.rebuildSucceeds then Some(RebuildStage)
      else if WatchChangeFails(input, env) || HmrStageFails(EffectiveInput(input, env), env) then Some(HmrStage)
      else None,
      rebuilt)
  }

  /** One call of the callback that passes updates on to the clients. */
  datatype Notice =
    | Reload(clients: set<ClientId>, files: set<Path>)
    | Updates(updates: seq<ClientUpdate>, files: set<Path>)
    | ComputeFailed

  /** The files a reload names: `*` stands for the missing list of a full build. */
  function ReloadFiles(input: TaskInput): set<Path> {
    if input.ChangedFiles() == map[] then {"*"} else input.ChangedFiles().Keys
  }

  /** A push as it leaves the server: each patch numbered, and without the carried stamps. */
  ghost predicate IsSent(before: Clients, updates: seq<ClientUpdate>, sent: seq<ClientUpdate>) {
    |sent| == |updates| && forall i | 0 <= i < |sent| :: IsSentAs(before, updates, i, sent[i])
  }

  /** A patch of a connected client has the number of the client's earlier patches, plus one. */
  ghost predicate IsSentAs(before: Clients, updates: seq<ClientUpdate>, i: nat, sent: ClientUpdate)
    requires i < |updates|
  {
    && sent.client == updates[i].client
    && match updates[i].update
       case Patch(filename, _, number) =>
         sent.update == Patch(filename, [], if sent.client !in before then number
           else before[sent.client].nextSeq + PatchCount(updates[..i], sent.client) + 1)
       case other => sent.update == other
  }

  lemma StrippedIsSent(before: Clients, updates: seq<ClientUpdate>, i: nat)
    requires i < |updates|
    ensures IsSentAs(before, updates, i, WithNumber(before, updates, i).Stripped())
  {
    assert updates[..i + 1][..i] == updates[..i];
  }

  /** What a successful HMR stage does to the shared maps: the sessions' counters move by the numbers
      of patches, and every client's newest payloads are pending. */
  ghost predicate IsPush(before: Shared, updates: seq<ClientUpdate>, after: Shared) {
    && after.topLevelEvaluated == before.topLevelEvaluated
    && after.clients.Keys == before.clients.Keys
    && (forall c | c in before.clients ::
          after.clients[c] == before.clients[c].(nextSeq := before.clients[c].nextSeq + PatchCount(updates, c)))
    && RecordsInTurn(before.pending, updates, after.pending)
    && (WithinBound(before.pending) && NamesAreFresh(before.pending, updates) ==>
          KeepsNewestOfAll(WithPayloads(before.pending, updates), after.pending))
  }

  /** The one notice of a task, if any: a reload comes before the HMR stage and replaces it. */
  ghost predicate IsNoticeOf(input: TaskInput, env: Environment, before: Shared, updates: seq<ClientUpdate>,
                             notices: seq<Notice>)
  {
    if WatchChangeFails(input, env) || !env.hasHmrCallback then notices == []
    else if MustReload(input, env) then
      |notices| == 1 && notices[0].Reload? && notices[0].clients == before.clients.Keys
      && notices[0].files == if input.FullBuild? || |input.files| == 0 then {"*"} else input.files.Keys
    else if !input.RequiresHmrUpdate() then notices == []
    else if !env.hmrSucceeds then notices == [ComputeFailed]
    else |notices| == 1 && notices[0].Updates? && notices[0].files == input.ChangedFiles().Keys
         && IsSent(before.clients, updates, notices[0].updates)
  }

  predicate PushesUpdates(input: TaskInput, env: Environment) {
    !WatchChangeFails(input, env) && EffectiveInput(input, env).RequiresHmrUpdate() && env.hmrSucceeds
  }

  class BundlingTask {
    var input: TaskInput
    var hmrErrored: bool
    var rebuildErrored: bool
    var hasRebuildHappened: bool
    /** The calls of the callback so far. */
    var notices: seq<Notice>
    const context: DevContext

    constructor (taskInput: TaskInput, devContext: DevContext)
      ensures IsNew() && input == taskInput && context == devContext
    {
      input := taskInput;
      hmrErrored, rebuildErrored, hasRebuildHappened := false, false, false;
      notices := [];
      context := devContext;
    }

    predicate IsNew()
      reads this
    {
      !hmrErrored && !rebuildErrored && !hasRebuildHappened && notices == []
    }

    /** A rebuild error takes precedence over an HMR error. */
    function FinalErrorStage(): (stage: Option<ErrorStage>)
      reads this
      ensures stage == Some(RebuildStage) <==> rebuildErrored
      ensures stage == Some(HmrStage) <==> hmrErrored && !rebuildErrored
    {
      if rebuildErrored then Some(RebuildStage)
      else if hmrErrored then Some(HmrStage)
      else None
    }

    /** `updates` is what the bundler computes for the clients, should the HMR stage succeed. */
    method Run(env: Environment, order: seq<Path>, updates: seq<ClientUpdate>) returns (report: Report)
      requires IsNew() && forall path :: path in order <==> path in input.ChangedFiles()
      modifies this, context
      ensures report == ReportOf(old(input), env)
      ensures report == Report(FinalErrorStage(), hasRebuildHappened)
      ensures input == if WatchChangeFails(old(input), env) then old(input) else EffectiveInput(old(input), env)
      ensures IsNoticeOf(old(input), env, old(context.View()), updates, notices)
      ensures if PushesUpdates(old(input), env) then IsPush(old(context.View()), updates, context.View())
              else context.View() == old(context.View())
    {
      RunInner(env, order, updates);
      report := Report(FinalErrorStage(), hasRebuildHappened);
    }

    method RunInner(env: Environment, order: seq<Path>, updates: seq<ClientUpdate>)
      requires IsNew() && forall path :: path in order <==> path in input.ChangedFiles()
      modifies this, context
      ensures Report(FinalErrorStage(), hasRebuildHappened) == ReportOf(old(input), env)
      ensures input == if WatchChangeFails(old(input), env) then old(input) else EffectiveInput(old(input), env)
      ensures IsNoticeOf(old(input), env, old(context.View()), updates, notices)
      ensures if PushesUpdates(old(input), env) then IsPush(old(context.View()), updates, context.View())
              else context.View() == old(context.View())
    {
      var mayContinue := CallWatchChange(env, order);
      if !mayContinue {
        return;
      }
      if MustReload(input, env) {
        if env.hasHmrCallback {
          notices := notices + [Reload(context.clients.Keys, ReloadFiles(input))];
        }
        input := FullBuild;
      }
      if input.RequiresHmrUpdate() {
        mayContinue := GenerateHmrUpdates(env, updates);
        if !mayContinue {
          return;
        }
      }
      if input.RequiresRebuild() {
        hasRebuildHappened := true;
        if !env.rebuildSucceeds {
          rebuildErrored := true;
        }
      }
    }

    /** The hook runs for each changed file until it fails once. */
    method CallWatchChange(env: Environment, order: seq<Path>) returns (mayContinue: bool)
      requires forall path :: path in order <==> path in input.ChangedFiles()
      modifies `hmrErrored
      ensures mayContinue <==> !WatchChangeFails(input, env)
      ensures hmrErrored == (old(hmrErrored) || !mayContinue)
    {
      for i := 0 to |order|
        invariant hmrErrored == old(hmrErrored)
        invariant forall j | 0 <= j < i :: env.hasLastBundle ==> order[j] !in env.failingHooks
      {
        if env.hasLastBundle {
          if order[i] in env.failingHooks {
            hmrErrored := true;
            assert order[i] in order && order[i] in input.ChangedFiles().Keys * env.failingHooks;
            return false;
          }
        }
      }
      assert !WatchChangeFails(input, env) by {
        forall path | path in input.ChangedFiles().Keys ensures env.hasLastBundle ==> path !in env.failingHooks {
          assert path in order;
        }
      }
      mayContinue := true;
    }

    /** Number and record the push, if it could be computed, and pass the outcome on. The result is
        false only when an error could not be delivered. */
    method GenerateHmrUpdates(env: Environment, updates: seq<ClientUpdate>) returns (mayContinue: bool)
      modifies `hmrErrored, `notices, context
      ensures hmrErrored == (old(hmrErrored) || !env.hmrSucceeds)
      ensures mayContinue == (env.hmrSucceeds || env.hasHmrCallback)
      ensures if env.hmrSucceeds then IsPush(old(context.View()), updates, context.View())
              else context.View() == old(context.View())
      ensures if !env.hasHmrCallback then notices == old(notices)
              else |notices| == |old(notices)| + 1 && notices[..|old(notices)|] == old(notices) &&
                   var last := notices[|old(notices)|];
                   if !env.hmrSucceeds then last == ComputeFailed
                   else last.Updates? && last.files == input.ChangedFiles().Keys
                        && IsSent(old(context.View()).clients, updates, last.updates)
    {
      var sent := [];
      if env.hmrSucceeds {
        var numbered := context.AssignSeqs(updates);
        sent := context.RecordPatches(numbered);
        NumberingKeepsPayloads(old(context.View()), updates, numbered, context.View());
        forall i: nat | i < |sent| ensures IsSentAs(old(context.View()).clients, updates, i, sent[i]) {
          assert numbered[i] == WithNumber(old(context.View()).clients, updates, i);
          StrippedIsSent(old(context.View()).clients, updates, i);
        }
      } else {
        hmrErrored := true;
      }
      if env.hasHmrCallback {
        notices := notices + [if env.hmrSucceeds then Updates(sent, input.ChangedFiles().Keys) else ComputeFailed];
      }
      mayContinue := env.hmrSucceeds || env.hasHmrCallback;
    }
  }

  /** Numbering changes no payload, so the numbered push is recorded as the computed one would be. */
  lemma NumberingKeepsPayloads(before: Shared, updates: seq<ClientUpdate>, numbered: seq<ClientUpdate>, after: Shared)
    requires IsNumbering(before.clients, updates, after.clients, numbered)
    requires RecordsInTurn(before.pending, numbered, after.pending)
    requires after.topLevelEvaluated == before.topLevelEvaluated
    ensures IsPush(before, updates, after)
  {
    forall i | 0 <= i < |updates| ensures SamePayload(numbered[i], updates[i]) {
      assert numbered[i] == WithNumber(before.clients, updates, i);
    }
    SameRecords(before.pending, numbered, updates, after.pending);
    if WithinBound(before.pending) && NamesAreFresh(before.pending, updates) {
      PushKeepsNewest(before.pending, updates, after.pending);
    }
  }

  ghost predicate SamePayload(a: ClientUpdate, b: ClientUpdate) {
    a.client == b.client && (a == b || (a.update.Patch? && b.update.Patch?
      && a.update.filename == b.update.filename && a.update.carried == b.update.carried))
  }

  lemma {:induction false} SameRecords(before: Pending, a: seq<ClientUpdate>, b: seq<ClientUpdate>, after: Pending)
    requires RecordsInTurn(before, a, after) && |a| == |b| && forall i | 0 <= i < |a| :: SamePayload(a[i], b[i])
    ensures RecordsInTurn(before, b, after)
    decreases |a|
  {
    if a != [] {
      var n := |a| - 1;
      var middle :| RecordsInTurn(before, a[..n], middle) && Records(middle, a[n], after);
      SameRecords(before, a[..n], b[..n], middle);
      assert SamePayload(a[n], b[n]);
      assert Records(middle, b[n], after);
    }
  }

  /** A task that reports success after a full build did produce output: the coordinator clears its
      staleness flag on such a report without looking at `hasGeneratedBundleOutput`. */
  lemma FullBuildSuccessHasOutput(input: TaskInput, env: Environment)
    requires input.FullBuild? || MustReload(input, env)
    requires ReportOf(input, env).errorStage == None
    ensures ReportOf(input, env).hasGeneratedBundleOutput && env.rebuildSucceeds
  {
  }

  /** A success without output is exactly an HMR-only task whose update was not upgraded. */
  lemma SuccessWithoutOutput(input: TaskInput, env: Environment)
    requires ReportOf(input, env).errorStage == None
    ensures !ReportOf(input, env).hasGeneratedBundleOutput <==> input.Hmr? && !MustReload(input, env)
  {
  }

  // ---- The outcome, by paths and stages ---------------------------------------------------

  /** The task starts over as a full build: a changed file is a tsconfig, or an earlier update was lost. */
  ghost predicate IsUpgraded(input: TaskInput, env: Environment) {
    env.hasLostHmrUpdate || exists path :: path in input.ChangedFiles() && path in env.tsconfigs
  }

  /** The hook runs only once there is a bundle, and fails for some changed file. */
  ghost predicate HookFails(input: TaskInput, env: Environment) {
    env.hasLastBundle && exists path :: path in input.ChangedFiles() && path in env.failingHooks
  }

  /** The input, if it is not upgraded, asks for updates that cannot be computed. */
  ghost predicate UpdateFails(input: TaskInput, env: Environment) {
    !IsUpgraded(input, env) && (input.Hmr? || input.HmrRebuild?) && !env.hmrSucceeds
  }

  lemma ReasonsIff(input: TaskInput, env: Environment)
    ensures WatchChangeFails(input, env) <==> HookFails(input, env)
    ensures MustReload(input, env) <==> IsUpgraded(input, env)
  {
    var changed := input.ChangedFiles().Keys;
    if path :| path in input.ChangedFiles() && path in env.failingHooks {
      assert path in changed * env.failingHooks;
    }
    if path :| path in input.ChangedFiles() && path in env.tsconfigs {
      assert path in changed * env.tsconfigs;
    }
    if path :| path in changed * env.failingHooks {
      assert path in input.ChangedFiles();
    }
    if path :| path in changed * env.tsconfigs {
      assert path in input.ChangedFiles();
    }
  }

  /** What the report of every task tells. There is output exactly if no hook failed, the task is upgraded or
      asked for a rebuild, and an update that failed could at least be reported. A rebuild that failed comes
      before an HMR error, which is a failed hook or a failed update. */
  lemma ReportTells(input: TaskInput, env: Environment)
    ensures var report := ReportOf(input, env);
      && (report.hasGeneratedBundleOutput <==>
            && !HookFails(input, env)
            && (IsUpgraded(input, env) || input.FullBuild? || input.Rebuild? || input.HmrRebuild?)
            && (UpdateFails(input, env) ==> env.hasHmrCallback))
      && (report.errorStage == Some(RebuildStage) <==> report.hasGeneratedBundleOutput && !env.rebuildSucceeds)
      && (report.errorStage == Some(HmrStage) <==>
            && (HookFails(input, env) || UpdateFails(input, env))
            && (report.hasGeneratedBundleOutput ==> env.rebuildSucceeds))
  {
    ReasonsIff(input, env);
  }
}
