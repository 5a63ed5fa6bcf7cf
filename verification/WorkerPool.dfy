/** The pool of worker indices: permits taken from a channel one message at a time. */
module WorkerPool {

  /** A task that asks for permits. `Collecting` is under way in `acquire_all`; a permit for all workers
      hands the indices back one by one, the next being `Returning.next`. */
  datatype Task =
    | Idle
    | Waiting
    | Holding(index: nat)
    | Collecting(got: seq<nat>)
    | HoldingAll
    | Returning(next: nat)
    | Done

  /** `count` indices, some in the channel, the others with the tasks. */
  datatype Pool = Pool(count: nat, channel: seq<nat>, tasks: seq<Task>)

  datatype Action =
    | Ask(task: nat)
    | AskAll(task: nat)
    | Receive(task: nat)
    | Release(task: nat)
    | Send(task: nat)
    | Cancel(task: nat)

  function Range(low: nat, high: nat): (s: seq<nat>)
    requires low <= high
    ensures |s| == high - low
    ensures forall i :: i in s <==> low <= i < high
    decreases high - low
  {
    if low == high then [] else [low] + Range(low + 1, high)
  }

  function Started(count: nat, tasks: nat): Pool {
    Pool(count, Range(0, count), seq(tasks, _ => Idle))
  }

  /** A collector that has `count` messages holds the permit for all workers. */
  function Collected(got: seq<nat>, count: nat): Task {
    if |got| == count then HoldingAll else Collecting(got)
  }

  function Returned(next: nat, count: nat): Task {
    if next == count then Done else Returning(next)
  }

  ghost predicate Enabled(p: Pool, a: Action) {
    && a.task < |p.tasks|
    && var t := p.tasks[a.task];
       match a
       case Ask(_) => t.Idle?
       case AskAll(_) => t.Idle?
       case Receive(_) => (t.Waiting? || t.Collecting?) && p.channel != []
       case Release(_) => t.Holding? || t.HoldingAll?
       case Send(_) => t.Returning? && t.next < p.count
       case Cancel(_) => t.Waiting? || t.Collecting?
  }

  function Step(p: Pool, a: Action): Pool
    requires Enabled(p, a)
  {
    var t := p.tasks[a.task];
    match a
    case Ask(k) => p.(tasks := p.tasks[k := Waiting])
    case AskAll(k) => p.(tasks := p.tasks[k := Collected([], p.count)])
    case Receive(k) =>
      var next := if t.Waiting? then Holding(p.channel[0]) else Collected(t.got + [p.channel[0]], p.count);
      p.(channel := p.channel[1..], tasks := p.tasks[k := next])
    case Release(k) =>
      if t.Holding? then p.(channel := p.channel + [t.index], tasks := p.tasks[k := Done])
      else p.(tasks := p.tasks[k := Returned(0, p.count)])
    case Send(k) => p.(channel := p.channel + [t.next], tasks := p.tasks[k := Returned(t.next + 1, p.count)])
    case Cancel(k) => p.(tasks := p.tasks[k := Done])
  }

  // ---- Where the indices are --------------------------------------------------------------

  function Owned(t: Task, count: nat): multiset<nat> {
    match t
    case Holding(i) => multiset{i}
    case Collecting(got) => multiset(got)
    case HoldingAll => multiset(Range(0, count))
    case Returning(next) => if next <= count then multiset(Range(next, count)) else multiset{}
    case _ => multiset{}
  }

  function Shares(p: Pool): (s: seq<multiset<nat>>)
    ensures |s| == |p.tasks| && forall k | 0 <= k < |s| :: s[k] == Owned(p.tasks[k], p.count)
  {
    seq(|p.tasks|, k requires 0 <= k < |p.tasks| => Owned(p.tasks[k], p.count))
  }

  function Sum(s: seq<multiset<nat>>): multiset<nat> {
    if s == [] then multiset{} else s[0] + Sum(s[1..])
  }

  /** Every index from 0 to `count` is in exactly one place. */
  ghost predicate Conserved(p: Pool) {
    multiset(p.channel) + Sum(Shares(p)) == multiset(Range(0, p.count))
  }

  lemma AddBoth(a: multiset<nat>, x: multiset<nat>, y: multiset<nat>, u: multiset<nat>, v: multiset<nat>)
    requires x + u == y + v
    ensures (a + x) + u == (a + y) + v
  {
    forall e: nat ensures ((a + x) + u)[e] == ((a + y) + v)[e] {
      assert (x + u)[e] == (y + v)[e];
    }
  }

  lemma {:induction false} SumAfter(s: seq<multiset<nat>>, k: nat, m: multiset<nat>)
    requires k < |s|
    ensures Sum(s[k := m]) + s[k] == Sum(s) + m
    decreases k
  {
    var rest := s[1..];
    if k == 0 {
      assert s[0 := m][1..] == rest;
    } else {
      assert s[k := m][1..] == rest[k - 1 := m];
      SumAfter(rest, k - 1, m);
      AddBoth(s[0], Sum(rest[k - 1 := m]), Sum(rest), s[k], m);
    }
  }

  lemma AddLeft(a: multiset<nat>, b: multiset<nat>, c: multiset<nat>)
    requires a <= b
    ensures a <= c + b && c + a <= c + b
  {
  }

  lemma {:induction false} PartOfSum(s: seq<multiset<nat>>, k: nat)
    requires k < |s|
    ensures s[k] <= Sum(s)
    decreases k
  {
    if k > 0 {
      PartOfSum(s[1..], k - 1);
      AddLeft(s[k], Sum(s[1..]), s[0]);
    }
  }

  lemma {:induction false} TwoPartsOfSum(s: seq<multiset<nat>>, i: nat, k: nat)
    requires i < k < |s|
    ensures s[i] + s[k] <= Sum(s)
    decreases i
  {
    if i == 0 {
      PartOfSum(s[1..], k - 1);
      AddLeft(s[k], Sum(s[1..]), s[0]);
    } else {
      TwoPartsOfSum(s[1..], i - 1, k - 1);
      AddLeft(s[i] + s[k], Sum(s[1..]), s[0]);
    }
  }

  lemma {:induction false} EmptySum(s: seq<multiset<nat>>)
    requires forall k | 0 <= k < |s| :: s[k] == multiset{}
    ensures Sum(s) == multiset{}
  {
    if s != [] {
      EmptySum(s[1..]);
    }
  }

  /** The first share that is not empty, if any is. */
  lemma {:induction false} FirstShare(s: seq<multiset<nat>>) returns (i: nat)
    ensures i <= |s| && (i == |s| <==> Sum(s) == multiset{})
    ensures i < |s| ==> s[i] != multiset{}
  {
    i := 0;
    if s != [] {
      SumIsEmpty(s[0], Sum(s[1..]));
      if s[0] == multiset{} {
        i := FirstShare(s[1..]);
        i := i + 1;
      }
    }
  }

  lemma SumIsEmpty(a: multiset<nat>, b: multiset<nat>)
    ensures a + b == multiset{} <==> a == multiset{} && b == multiset{}
  {
    if a != multiset{} {
      var x :| x in a;
      assert x in a + b;
    } else if b != multiset{} {
      var x :| x in b;
      assert x in a + b;
    }
  }

  /** What a task gives up, the channel gets, or the other way round. */
  lemma Move(channel: multiset<nat>, owned: multiset<nat>, all: multiset<nat>, channel': multiset<nat>,
      owned': multiset<nat>,
             before: multiset<nat>, after: multiset<nat>)
    requires channel + owned == all && owned' + before == owned + after && channel' + after == channel + before
    ensures channel' + owned' == all
  {
    forall e: nat ensures (channel' + owned')[e] == all[e] {
      assert (channel + owned)[e] == all[e];
      assert (owned' + before)[e] == (owned + after)[e] && (channel' + after)[e] == (channel + before)[e];
    }
  }

  lemma SharesAfter(p: Pool, k: nat, t: Task, channel: seq<nat>)
    requires k < |p.tasks|
    ensures Shares(Pool(p.count, channel, p.tasks[k := t])) == Shares(p)[k := Owned(t, p.count)]
  {
  }

  lemma ExchangeConserves(p: Pool, k: nat, t: Task, channel: seq<nat>)
    requires Conserved(p) && k < |p.tasks|
    requires multiset(channel) + Owned(t, p.count) == multiset(p.channel) + Owned(p.tasks[k], p.count)
    ensures Conserved(Pool(p.count, channel, p.tasks[k := t]))
  {
    SharesAfter(p, k, t, channel);
    SumAfter(Shares(p), k, Owned(t, p.count));
    Move(multiset(p.channel), Sum(Shares(p)), multiset(Range(0, p.count)),
         multiset(channel), Sum(Shares(p)[k := Owned(t, p.count)]), Owned(p.tasks[k], p.count), Owned(t, p.count));
  }

  lemma StartConserves(count: nat, tasks: nat)
    ensures Conserved(Started(count, tasks))
  {
    EmptySum(Shares(Started(count, tasks)));
  }

  /** A part that is as large as the whole is the whole. */
  lemma FullPart(part: multiset<nat>, whole: multiset<nat>)
    requires part <= whole && |part| == |whole|
    ensures part == whole
  {
    assert whole == part + (whole - part);
    assert |whole - part| == 0;
  }

  lemma CollectorHasAll(p: Pool, got: seq<nat>)
    requires multiset(got) <= multiset(Range(0, p.count)) && |got| == p.count
    ensures multiset(got) == Owned(HoldingAll, p.count)
  {
    assert |multiset(got)| == |got| && |multiset(Range(0, p.count))| == p.count;
    FullPart(multiset(got), multiset(Range(0, p.count)));
  }

  lemma FirstMessage(channel: seq<nat>)
    requires channel != []
    ensures multiset(channel) == multiset{channel[0]} + multiset(channel[1..])
  {
    assert channel == [channel[0]] + channel[1..];
  }

  lemma PartsOfAll(p: Pool, k: nat)
    requires Conserved(p) && k < |p.tasks|
    ensures multiset(p.channel) + Owned(p.tasks[k], p.count) <= multiset(Range(0, p.count))
  {
    PartOfSum(Shares(p), k);
    AddLeft(Owned(p.tasks[k], p.count), Sum(Shares(p)), multiset(p.channel));
  }

  lemma CollectOne(p: Pool, k: nat)
    requires Conserved(p) && Enabled(p, Receive(k)) && p.tasks[k].Collecting?
    ensures Owned(Collected(p.tasks[k].got + [p.channel[0]], p.count), p.count) ==
        Owned(p.tasks[k], p.count) + multiset{p.channel[0]}
  {
    var got := p.tasks[k].got + [p.channel[0]];
    assert multiset(got) == multiset(p.tasks[k].got) + multiset{p.channel[0]};
    if |got| == p.count {
      FirstMessage(p.channel);
      PartsOfAll(p, k);
      CollectorHasAll(p, got);
    }
  }

  lemma ReceiveConserves(p: Pool, k: nat)
    requires Conserved(p) && Enabled(p, Receive(k))
    ensures Conserved(Step(p, Receive(k)))
  {
    FirstMessage(p.channel);
    if p.tasks[k].Collecting? {
      CollectOne(p, k);
    }
    ExchangeConserves(p, k, Step(p, Receive(k)).tasks[k], p.channel[1..]);
  }

  lemma SendConserves(p: Pool, k: nat)
    requires Conserved(p) && Enabled(p, Send(k))
    ensures Conserved(Step(p, Send(k)))
  {
    var i := p.tasks[k].next;
    SendOne(i, p.count);
    PassOnConserves(p, k, Returned(i + 1, p.count), i);
  }

  /** A task puts one of its indices into the channel. */
  lemma PassOnConserves(p: Pool, k: nat, t: Task, i: nat)
    requires Conserved(p) && k < |p.tasks| && Owned(p.tasks[k], p.count) == multiset{i} + Owned(t, p.count)
    ensures Conserved(Pool(p.count, p.channel + [i], p.tasks[k := t]))
  {
    LastMessage(p.channel, i, Owned(t, p.count));
    ExchangeConserves(p, k, t, p.channel + [i]);
  }

  lemma LastMessage(channel: seq<nat>, i: nat, owned: multiset<nat>)
    ensures multiset(channel + [i]) + owned == multiset(channel) + (multiset{i} + owned)
  {
    assert multiset(channel + [i]) == multiset(channel) + multiset{i};
  }

  lemma SendOne(i: nat, count: nat)
    requires i < count
    ensures multiset{i} + Owned(Returned(i + 1, count), count) == Owned(Returning(i), count)
  {
    FirstMessage(Range(i, count));
    assert Range(i, count)[1..] == Range(i + 1, count);
  }

  /** Every step but one keeps each index in exactly one place. */
  lemma StepConserves(p: Pool, a: Action)
    requires Conserved(p) && Enabled(p, a) && !a.Cancel?
    ensures Conserved(Step(p, a))
  {
    match a
    case Ask(k) => ExchangeConserves(p, k, Waiting, p.channel);
    case AskAll(k) => ExchangeConserves(p, k, Collected([], p.count), p.channel);
    case Receive(k) => ReceiveConserves(p, k);
    case Release(k) => ReleaseConserves(p, k);
    case Send(k) => SendConserves(p, k);
  }

  lemma ReleaseConserves(p: Pool, k: nat)
    requires Conserved(p) && Enabled(p, Release(k))
    ensures Conserved(Step(p, Release(k)))
  {
    if p.tasks[k].Holding? {
      var i := p.tasks[k].index;
      assert multiset{i} + multiset{} == multiset{i};
      PassOnConserves(p, k, Done, i);
    } else {
      ReturnAllOwns(p.count);
      ExchangeConserves(p, k, Returned(0, p.count), p.channel);
    }
  }

  lemma ReturnAllOwns(count: nat)
    ensures Owned(Returned(0, count), count) == Owned(HoldingAll, count)
  {
  }

  /** Dropping an unfinished request keeps the indices exactly if nothing has been collected yet: the
      indices a dropped `acquire_all` received are gone for good. */
  lemma CancelConservesIff(p: Pool, k: nat)
    requires Conserved(p) && Enabled(p, Cancel(k))
    ensures Conserved(Step(p, Cancel(k))) <==> p.tasks[k].Waiting? || p.tasks[k].got == []
  {
    var lost := Owned(p.tasks[k], p.count);
    SharesAfter(p, k, Done, p.channel);
    SumAfter(Shares(p), k, multiset{});
    LostIsMissing(multiset(p.channel), Sum(Shares(p)), Sum(Shares(p)[k := multiset{}]), lost);
    if p.tasks[k].Collecting? && p.tasks[k].got != [] {
      assert p.tasks[k].got[0] in lost;
    }
  }

  lemma LostIsMissing(channel: multiset<nat>, owned: multiset<nat>, owned': multiset<nat>, lost: multiset<nat>)
    requires owned' + lost == owned + multiset{}
    ensures channel + owned' == channel + owned <==> lost == multiset{}
  {
    forall e: nat ensures owned'[e] + lost[e] == owned[e] {
      assert (owned' + lost)[e] == (owned + multiset{})[e];
    }
    if channel + owned' == channel + owned {
      forall e: nat ensures lost[e] == 0 {
        assert (channel + owned')[e] == (channel + owned)[e];
      }
    }
    if lost == multiset{} {
      assert owned' == owned;
    }
  }

  // ---- Runs -------------------------------------------------------------------------------

  ghost predicate IsRun(p: Pool, actions: seq<Action>, q: Pool)
    decreases |actions|
  {
    if actions == [] then q == p
    else Enabled(p, actions[0]) && IsRun(Step(p, actions[0]), actions[1..], q)
  }

  lemma {:induction false} RunConserves(p: Pool, actions: seq<Action>, q: Pool)
    requires Conserved(p) && IsRun(p, actions, q) && forall a | a in actions :: !a.Cancel?
    ensures Conserved(q)
    decreases |actions|
  {
    if actions != [] {
      StepConserves(p, actions[0]);
      RunConserves(Step(p, actions[0]), actions[1..], q);
    }
  }

  /** In every run without dropped requests, no two tasks use the same worker, and a task that holds
      the permit for all workers is alone: nobody else has an index and the channel is empty. */
  lemma PermitsAreExclusive(count: nat, tasks: nat, actions: seq<Action>, p: Pool)
    requires IsRun(Started(count, tasks), actions, p) && forall a | a in actions :: !a.Cancel?
    ensures forall i, k | 0 <= i < k < |p.tasks| && p.tasks[i].Holding? && p.tasks[k].Holding? ::
        p.tasks[i].index != p.tasks[k].index
    ensures forall k | 0 <= k < |p.tasks| && p.tasks[k].HoldingAll? ::
      p.channel == [] && forall i | 0 <= i < |p.tasks| && i != k :: Owned(p.tasks[i], p.count) == multiset{}
  {
    StartConserves(count, tasks);
    RunConserves(Started(count, tasks), actions, p);
    forall i, k | 0 <= i < k < |p.tasks| && p.tasks[i].Holding? && p.tasks[k].Holding?
      ensures p.tasks[i].index != p.tasks[k].index
    {
      HoldersDiffer(p, i, k);
    }
    forall k | 0 <= k < |p.tasks| && p.tasks[k].HoldingAll?
      ensures p.channel == [] && forall i | 0 <= i < |p.tasks| && i != k :: Owned(p.tasks[i], p.count) == multiset{}
    {
      HolderOfAllIsAlone(p, k);
    }
  }

  lemma {:induction false} RangeIsDistinct(low: nat, high: nat, i: nat)
    requires low <= high
    ensures multiset(Range(low, high))[i] <= 1
    decreases high - low
  {
    if low < high {
      RangeIsDistinct(low + 1, high, i);
      assert i == low ==> i !in Range(low + 1, high);
      assert multiset(Range(low, high)) == multiset{low} + multiset(Range(low + 1, high));
    }
  }

  lemma HoldersDiffer(p: Pool, i: nat, k: nat)
    requires Conserved(p) && i < k < |p.tasks| && p.tasks[i].Holding? && p.tasks[k].Holding?
    ensures p.tasks[i].index != p.tasks[k].index
  {
    var a, b := p.tasks[i].index, p.tasks[k].index;
    TwoPartsOfSum(Shares(p), i, k);
    AddLeft(multiset{a} + multiset{b}, Sum(Shares(p)), multiset(p.channel));
    RangeIsDistinct(0, p.count, a);
    assert (multiset{a} + multiset{b})[a] <= multiset(Range(0, p.count))[a];
  }

  /** Nothing is left beside a part that is everything. */
  lemma NothingBeside(all: multiset<nat>, channel: multiset<nat>, owned: multiset<nat>, other: multiset<nat>)
    requires channel + owned == all && all + other <= owned
    ensures channel == multiset{} && other == multiset{}
  {
    forall e: nat ensures channel[e] == 0 && other[e] == 0 {
      assert (channel + owned)[e] == all[e] && (all + other)[e] <= owned[e];
    }
  }

  lemma HolderOfAllIsAlone(p: Pool, k: nat)
    requires Conserved(p) && k < |p.tasks| && p.tasks[k].HoldingAll?
    ensures p.channel == [] && forall i | 0 <= i < |p.tasks| && i != k :: Owned(p.tasks[i], p.count) == multiset{}
  {
    var all := Owned(HoldingAll, p.count);
    PartOfSum(Shares(p), k);
    assert all + multiset{} == all;
    NothingBeside(all, multiset(p.channel), Sum(Shares(p)), multiset{});
    assert |multiset(p.channel)| == |p.channel|;
    forall i | 0 <= i < |p.tasks| && i != k ensures Owned(p.tasks[i], p.count) == multiset{} {
      TwoPartsOfSum(Shares(p), if i < k then i else k, if i < k then k else i);
      assert all + Owned(p.tasks[i], p.count) == Owned(p.tasks[i], p.count) + all;
      NothingBeside(all, multiset(p.channel), Sum(Shares(p)), Owned(p.tasks[i], p.count));
    }
  }

  // ---- Getting stuck ----------------------------------------------------------------------

  /** A request that has as many indices as there are workers no longer collects, and a permit that has
      sent all of them back is done. */
  predicate IsUnderWay(t: Task, count: nat) {
    && (t.Collecting? ==> |t.got| < count)
    && (t.Returning? ==> t.next < count)
  }

  ghost predicate AreUnderWay(p: Pool) {
    forall k {:trigger p.tasks[k]} | 0 <= k < |p.tasks| :: IsUnderWay(p.tasks[k], p.count)
  }

  lemma {:induction false} RunsAreUnderWay(p: Pool, actions: seq<Action>, q: Pool)
    requires AreUnderWay(p) && IsRun(p, actions, q)
    ensures AreUnderWay(q) && q.count == p.count
    decreases |actions|
  {
    if actions != [] {
      StepIsUnderWay(p, actions[0]);
      RunsAreUnderWay(Step(p, actions[0]), actions[1..], q);
    }
  }

  lemma StepIsUnderWay(p: Pool, a: Action)
    requires AreUnderWay(p) && Enabled(p, a)
    ensures AreUnderWay(Step(p, a)) && Step(p, a).count == p.count
  {
    assert IsUnderWay(p.tasks[a.task], p.count);
  }

  predicate IsUnfinished(t: Task) {
    !t.Done? && !t.Idle?
  }

  /** Somebody wants something, and only giving up is left. */
  ghost predicate IsStuck(p: Pool) {
    && (exists k :: 0 <= k < |p.tasks| && IsUnfinished(p.tasks[k]))
    && forall a: Action | !a.Cancel? && !a.Ask? && !a.AskAll? :: !Enabled(p, a)
  }

  /** Nobody can move: all that tasks own was collected by requests for all workers. */
  lemma StuckMeansCollecting(p: Pool)
    requires IsStuck(p) && AreUnderWay(p)
    ensures forall k | 0 <= k < |p.tasks| && Owned(p.tasks[k], p.count) != multiset{} ::
        p.tasks[k].Collecting? && p.tasks[k].got != []
    ensures p.channel == []
  {
    forall k: nat | k < |p.tasks| ensures !p.tasks[k].Holding? && !p.tasks[k].HoldingAll? && !p.tasks[k].Returning? {
      assert !Enabled(p, Release(k)) && !Enabled(p, Send(k)) && IsUnderWay(p.tasks[k], p.count);
    }
    var w :| 0 <= w < |p.tasks| && IsUnfinished(p.tasks[w]);
    assert !Enabled(p, Receive(w));
  }

  lemma SomebodyOwns(p: Pool) returns (i: nat)
    requires Conserved(p) && p.count > 0 && p.channel == []
    ensures i < |p.tasks| && Owned(p.tasks[i], p.count) != multiset{}
  {
    i := FirstShare(Shares(p));
    assert |multiset(Range(0, p.count))| == p.count;
    assert multiset([]) + Sum(Shares(p)) == Sum(Shares(p));
  }

  lemma AnotherOwns(p: Pool, i: nat) returns (k: nat)
    requires Conserved(p) && p.channel == [] && i < |p.tasks| && p.tasks[i].Collecting? && |p.tasks[i].got| < p.count
    ensures k < |p.tasks| && k != i && Owned(p.tasks[k], p.count) != multiset{}
  {
    var others := Shares(p)[i := multiset{}];
    SumAfter(Shares(p), i, multiset{});
    k := FirstShare(others);
    assert |multiset(Range(0, p.count))| == p.count && |multiset(p.tasks[i].got)| == |p.tasks[i].got|;
    assert Sum(others) + multiset(p.tasks[i].got) == multiset(Range(0, p.count));
  }

  /** With at least one worker and no dropped request, it takes two tasks in `acquire_all` at once to
      get stuck, each with a part of the indices. */
  lemma StuckNeedsTwoCollectors(count: nat, tasks: nat, actions: seq<Action>, p: Pool)
    requires count > 0 && IsRun(Started(count, tasks), actions, p) && (forall a | a in actions :: !a.Cancel?)
        && IsStuck(p)
    ensures exists i, k ::
      && 0 <= i < |p.tasks| && 0 <= k < |p.tasks| && i != k
      && p.tasks[i].Collecting? && p.tasks[k].Collecting? && p.tasks[i].got != [] && p.tasks[k].got != []
  {
    StartConserves(count, tasks);
    RunConserves(Started(count, tasks), actions, p);
    RunsAreUnderWay(Started(count, tasks), actions, p);
    StuckMeansCollecting(p);
    var i := SomebodyOwns(p);
    var k := AnotherOwns(p, i);
    assert p.tasks[i].got != [] && p.tasks[k].got != [];
  }

  lemma RunFrom(p: Pool, a: Action, rest: seq<Action>, q: Pool)
    requires Enabled(p, a) && IsRun(Step(p, a), rest, q)
    ensures IsRun(p, [a] + rest, q)
  {
    assert ([a] + rest)[1..] == rest;
  }

  // ---- Exactly when it happens ------------------------------------------------------------

  predicate Cancels(actions: seq<Action>) {
    exists a | a in actions :: a.Cancel?
  }

  ghost predicate CanGetStuck(count: nat, tasks: nat) {
    exists actions, p :: IsRun(Started(count, tasks), actions, p) && !Cancels(actions) && IsStuck(p)
  }

  lemma {:induction false} RunKeepsTasks(p: Pool, actions: seq<Action>, q: Pool)
    requires IsRun(p, actions, q)
    ensures |q.tasks| == |p.tasks| && q.count == p.count
    decreases |actions|
  {
    if actions != [] {
      RunKeepsTasks(Step(p, actions[0]), actions[1..], q);
    }
  }

  /** A collector takes everything that is in the channel, which is not enough. */
  lemma {:induction false} CollectChannel(p: Pool, k: nat) returns (actions: seq<Action>, q: Pool)
    requires k < |p.tasks| && p.tasks[k].Collecting? && |p.tasks[k].got| + |p.channel| < p.count
    ensures IsRun(p, actions, q) && !Cancels(actions) && q.channel == [] && |q.tasks| == |p.tasks|
    ensures q.tasks[k].Collecting? && forall i | 0 <= i < |p.tasks| && i != k :: q.tasks[i] == p.tasks[i]
    decreases |p.channel|
  {
    if p.channel == [] {
      actions, q := [], p;
    } else {
      var next := Step(p, Receive(k));
      actions, q := CollectChannel(next, k);
      RunFrom(p, Receive(k), actions, q);
      actions := [Receive(k)] + actions;
    }
  }

  lemma IdleTasks(count: nat, tasks: nat)
    ensures var p := Started(count, tasks);
      |p.tasks| == tasks && |p.channel| == count == p.count && forall i | 0 <= i < tasks :: p.tasks[i] == Idle
  {
  }

  /** Two collectors: the first takes one index, the second all the others. */
  lemma ShareWorkers(count: nat, tasks: nat) returns (actions: seq<Action>, q: Pool)
    requires count >= 2 && tasks >= 2
    ensures IsRun(Started(count, tasks), actions, q) && !Cancels(actions) && q.channel == [] && |q.tasks| == tasks
    ensures q.tasks[0].Collecting? && q.tasks[1].Collecting? && forall i | 2 <= i < tasks :: q.tasks[i] == Idle
  {
    IdleTasks(count, tasks);
    var p0 := Started(count, tasks);
    var p1 := Step(p0, AskAll(0));
    var p2 := Step(p1, AskAll(1));
    var p3 := Step(p2, Receive(0));
    actions, q := CollectChannel(p3, 1);
    RunFrom(p2, Receive(0), actions, q);
    actions := [Receive(0)] + actions;
    RunFrom(p1, AskAll(1), actions, q);
    actions := [AskAll(1)] + actions;
    RunFrom(p0, AskAll(0), actions, q);
    actions := [AskAll(0)] + actions;
  }

  lemma NoWorkers(tasks: nat)
    requires tasks >= 1
    ensures CanGetStuck(0, tasks)
  {
    var p := Started(0, tasks);
    var q := Step(p, Ask(0));
    RunFrom(p, Ask(0), [], q);
    assert IsUnfinished(q.tasks[0]);
    assert IsRun(p, [Ask(0)] + [], q) && !Cancels([Ask(0)] + []) && IsStuck(q);
  }

  /** Without dropped requests, a pool can get stuck exactly if it has no worker for some task, or at
      least two workers for at least two tasks. */
  lemma CanGetStuckIff(count: nat, tasks: nat)
    ensures CanGetStuck(count, tasks) <==> (count == 0 && tasks >= 1) || (count >= 2 && tasks >= 2)
  {
    if count == 0 && tasks >= 1 {
      NoWorkers(tasks);
    }
    if count >= 2 && tasks >= 2 {
      var actions, q := ShareWorkers(count, tasks);
      assert IsUnfinished(q.tasks[0]);
      assert IsStuck(q);
    }
    if CanGetStuck(count, tasks) {
      var actions, p :| IsRun(Started(count, tasks), actions, p) && !Cancels(actions) && IsStuck(p);
      RunKeepsTasks(Started(count, tasks), actions, p);
      RunsAreUnderWay(Started(count, tasks), actions, p);
      if count > 0 {
        StuckNeedsTwoCollectors(count, tasks, actions, p);
        var i, k :|
          && 0 <= i < |p.tasks| && 0 <= k < |p.tasks| && i != k
          && p.tasks[i].Collecting? && p.tasks[k].Collecting? && p.tasks[i].got != [] && p.tasks[k].got != [];
        assert IsUnderWay(p.tasks[i], p.count);
      }
    }
  }

  lemma {:induction false} CollectorAsked(p: Pool, actions: seq<Action>, q: Pool, k: nat)
    requires IsRun(p, actions, q) && k < |q.tasks| == |p.tasks| && q.tasks[k].Collecting?
    ensures p.tasks[k].Collecting? || AskAll(k) in actions
    decreases |actions|
  {
    if actions != [] {
      CollectorAsked(Step(p, actions[0]), actions[1..], q, k);
    }
  }

  lemma StuckAsksTwice(count: nat, tasks: nat, actions: seq<Action>, p: Pool) returns (x: nat, y: nat)
    requires count > 0 && IsRun(Started(count, tasks), actions, p) && !Cancels(actions) && IsStuck(p)
    ensures x < |actions| && y < |actions| && x != y && actions[x].AskAll? && actions[y].AskAll?
  {
    StuckNeedsTwoCollectors(count, tasks, actions, p);
    var i: nat, k: nat :| i < |p.tasks| && k < |p.tasks| && i != k && p.tasks[i].Collecting? && p.tasks[k].Collecting?;
    RunKeepsTasks(Started(count, tasks), actions, p);
    CollectorAsked(Started(count, tasks), actions, p, i);
    CollectorAsked(Started(count, tasks), actions, p, k);
    x :| x < |actions| && actions[x] == AskAll(i);
    y :| y < |actions| && actions[y] == AskAll(k);
  }

  /** With a worker, a run with at most one `acquire_all` and no dropped request never gets stuck. */
  lemma {:induction false} OneCollectorNeverStuck(count: nat, tasks: nat, actions: seq<Action>, p: Pool)
    requires count > 0 && IsRun(Started(count, tasks), actions, p) && !Cancels(actions)
    requires forall i, j | 0 <= i < j < |actions| :: !actions[i].AskAll? || !actions[j].AskAll?
    ensures !IsStuck(p)
  {
    if IsStuck(p) {
      var x, y := StuckAsksTwice(count, tasks, actions, p);
    }
  }
}
