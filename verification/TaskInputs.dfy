/** The inputs of bundling tasks and how queued inputs are merged. */
module TaskInputs {

  import opened Wrappers

  type Path = string

  datatype ChangeKind = Create | Update | Delete

  type Changes = map<Path, ChangeKind>

  datatype TaskInput =
    | FullBuild
    | Rebuild(files: Changes)
    | Hmr(files: Changes)
    | HmrRebuild(files: Changes)
  {
    function ChangedFiles(): Changes {
      if FullBuild? then map[] else files
    }

    predicate RequiresFullRebuild() {
      FullBuild?
    }

    predicate RequiresHmrUpdate() {
      Hmr? || HmrRebuild?
    }

    predicate RequiresRebuild() {
      FullBuild? || Rebuild? || HmrRebuild?
    }

    predicate IsMergeableWith(other: TaskInput) {
      match this
      case FullBuild => true
      case Rebuild(_) => other.Rebuild?
      case Hmr(_) => other.Hmr? || other.HmrRebuild?
      case HmrRebuild(_) => other.Hmr? || other.HmrRebuild?
    }

    /** Incompatible inputs leave the receiver as it is. */
    function MergeWith(other: TaskInput): TaskInput {
      match (this, other)
      case (FullBuild, _) => this
      case (Rebuild(a), Rebuild(b)) => Rebuild(a + b)
      case (Hmr(a), Hmr(b)) => Hmr(a + b)
      case (HmrRebuild(a), Hmr(b)) => HmrRebuild(a + b)
      case (HmrRebuild(a), HmrRebuild(b)) => HmrRebuild(a + b)
      case (Hmr(a), HmrRebuild(b)) => HmrRebuild(a + b)
      case _ => this
    }

    /** Running this input takes a change of `path` into account: a full build reads every file. */
    predicate Covers(path: Path) {
      FullBuild? || path in files
    }
  }

  /** Merging loses nothing: it covers what either input covers, and still does every stage either
      input required, unless a full build absorbs the other input. */
  lemma MergeKeepsWork(a: TaskInput, b: TaskInput)
    requires a.IsMergeableWith(b)
    ensures forall path :: a.MergeWith(b).Covers(path) <==> a.Covers(path) || b.Covers(path)
    ensures a.MergeWith(b).RequiresRebuild() <==> a.RequiresRebuild() || b.RequiresRebuild()
    ensures !a.FullBuild? ==> (a.MergeWith(b).RequiresHmrUpdate() <==> a.RequiresHmrUpdate() || b.RequiresHmrUpdate())
    ensures a.MergeWith(b).RequiresFullRebuild() <==> a.RequiresFullRebuild()
  {
  }

  /** A full build absorbs anything; otherwise only inputs of one kind go together: both update, or
      both do not, and neither is a full build. */
  lemma MergeableIff(a: TaskInput, b: TaskInput)
    ensures a.IsMergeableWith(b) <==>
            a.FullBuild? || (!b.FullBuild? && (a.RequiresHmrUpdate() <==> b.RequiresHmrUpdate()))
  {
  }

  /** Pop the first input and absorb every directly following input it is mergeable with. */
  function MergeFront(task: TaskInput, rest: seq<TaskInput>): (r: (TaskInput, seq<TaskInput>))
    ensures |r.1| <= |rest|
    decreases |rest|
  {
    if rest != [] && task.IsMergeableWith(rest[0]) then MergeFront(task.MergeWith(rest[0]), rest[1..])
    else (task, rest)
  }

  predicate AnyCovers(tasks: seq<TaskInput>, path: Path) {
    exists t | t in tasks :: t.Covers(path)
  }

  lemma CoversEither(task: TaskInput, tasks: seq<TaskInput>, path: Path)
    ensures AnyCovers([task] + tasks, path) <==> task.Covers(path) || AnyCovers(tasks, path)
  {
    if AnyCovers(tasks, path) {
      var t :| t in tasks && t.Covers(path);
      assert t in [task] + tasks;
    }
    assert task in [task] + tasks;
  }

  /** The merged task and what stays queued cover exactly what was queued before. */
  lemma {:induction false} MergeFrontKeepsCoverage(task: TaskInput, rest: seq<TaskInput>, path: Path)
    ensures var (merged, left) := MergeFront(task, rest);
      merged.Covers(path) || AnyCovers(left, path) <==> task.Covers(path) || AnyCovers(rest, path)
    decreases |rest|
  {
    if rest != [] && task.IsMergeableWith(rest[0]) {
      MergeKeepsWork(task, rest[0]);
      assert rest == [rest[0]] + rest[1..];
      CoversEither(rest[0], rest[1..], path);
      MergeFrontKeepsCoverage(task.MergeWith(rest[0]), rest[1..], path);
    }
  }

  /** Merging neither makes a full build nor loses one at the front. */
  lemma {:induction false} MergeFrontKeepsFullBuild(task: TaskInput, rest: seq<TaskInput>)
    ensures MergeFront(task, rest).0.RequiresFullRebuild() <==> task.RequiresFullRebuild()
    decreases |rest|
  {
    if rest != [] && task.IsMergeableWith(rest[0]) {
      MergeFrontKeepsFullBuild(task.MergeWith(rest[0]), rest[1..]);
    }
  }

  /** The latest change of `path` that the inputs name. */
  function LatestOf(tasks: seq<TaskInput>, path: Path): Option<ChangeKind> {
    if tasks == [] then None
    else
      var last := tasks[|tasks| - 1];
      if !last.FullBuild? && path in last.files then Some(last.files[path]) else LatestOf(tasks[..|tasks| - 1], path)
  }

  ghost predicate AnyRebuilds(tasks: seq<TaskInput>) {
    exists t | t in tasks :: t.RequiresRebuild()
  }

  ghost predicate AnyUpdates(tasks: seq<TaskInput>) {
    exists t | t in tasks :: t.RequiresHmrUpdate()
  }

  /** `task` does the work of all the merged inputs: their stages, and for each file the latest change. */
  ghost predicate DoesWorkOf(task: TaskInput, merged: seq<TaskInput>) {
    && (task.RequiresRebuild() <==> AnyRebuilds(merged))
    && (!task.FullBuild? ==>
          && (task.RequiresHmrUpdate() <==> AnyUpdates(merged))
          && forall path :: LatestOf([task], path) == LatestOf(merged, path))
  }

  lemma OneMoreMerged(task: TaskInput, merged: seq<TaskInput>, next: TaskInput)
    requires DoesWorkOf(task, merged) && task.IsMergeableWith(next) && merged != []
    requires merged[0].FullBuild? <==> task.FullBuild?
    ensures DoesWorkOf(task.MergeWith(next), merged + [next])
    ensures (merged + [next])[0].FullBuild? <==> task.MergeWith(next).FullBuild?
  {
    var all, sum := merged + [next], task.MergeWith(next);
    assert all[..|all| - 1] == merged && next in all;
    forall t | t in merged ensures t in all {
    }
    assert AnyRebuilds(all) <==> AnyRebuilds(merged) || next.RequiresRebuild();
    assert AnyUpdates(all) <==> AnyUpdates(merged) || next.RequiresHmrUpdate();
    if !sum.FullBuild? {
      forall path ensures LatestOf([sum], path) == LatestOf(all, path) {
        assert [sum][..0] == [] && [task][..0] == [];
      }
    }
  }

  /** The queue's front is merged up to the first input that does not go with it, and the merged input
      does the work of all of them. */
  lemma {:induction false} MergeFrontDoesWork(task: TaskInput, rest: seq<TaskInput>, merged: seq<TaskInput>)
    returns (n: nat)
    requires merged != [] && DoesWorkOf(task, merged) && (merged[0].FullBuild? <==> task.FullBuild?)
    ensures var (front, left) := MergeFront(task, rest);
      && n <= |rest| && left == rest[n..] && DoesWorkOf(front, merged + rest[..n])
      && (n < |rest| ==> !front.IsMergeableWith(rest[n]))
    decreases |rest|
  {
    if rest != [] && task.IsMergeableWith(rest[0]) {
      OneMoreMerged(task, merged, rest[0]);
      var more := MergeFrontDoesWork(task.MergeWith(rest[0]), rest[1..], merged + [rest[0]]);
      n := more + 1;
      assert merged + rest[..n] == merged + [rest[0]] + rest[1..][..more];
    } else {
      n := 0;
      assert merged + rest[..0] == merged;
    }
  }

  /** The same for a whole queue. */
  lemma MergedQueueDoesWork(queue: seq<TaskInput>) returns (n: nat)
    requires queue != []
    ensures var (front, left) := MergeFront(queue[0], queue[1..]);
      && 1 <= n <= |queue| && left == queue[n..] && DoesWorkOf(front, queue[..n])
      && (n < |queue| ==> !front.IsMergeableWith(queue[n]))
  {
    assert queue[0] in [queue[0]] && [queue[0]][0] == queue[0];
    var more := MergeFrontDoesWork(queue[0], queue[1..], [queue[0]]);
    n := more + 1;
    assert queue[..n] == [queue[0]] + queue[1..][..more];
  }
}
