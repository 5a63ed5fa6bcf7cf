/** The walk over a file tree whose directories may link to each other. */
module GlobWalk {
  import opened Wrappers

  type Name = nat

  /** A canonical path, by its segments. */
  type Path = seq<Name>

  /** What an entry is: a real directory, a file or a link to one, a link to the directory with the
      given canonical path, or a link that leads nowhere. */
  datatype Kind = SubDir | File | LinkTo(target: Path) | Dangling

  datatype Entry = Entry(name: Name, kind: Kind)

  /** A finite file tree: the entries of each real directory in the order they are walked, and the
      names a walk that is not exhaustive leaves out. */
  datatype Tree = Tree(dirs: map<Path, seq<Entry>>, hidden: set<Name>)
  {
    ghost predicate Valid() {
      forall p, i {:trigger EntryAt(p, i)} | p in dirs && 0 <= i < |dirs[p]| ::
        match EntryAt(p, i).kind
        case SubDir => p + [EntryAt(p, i).name] in dirs
        case LinkTo(target) => target in dirs
        case _ => true
    }

    function EntryAt(p: Path, i: nat): Entry
      requires p in dirs && i < |dirs[p]|
    {
      dirs[p][i]
    }
  }

  /** An entry that is no real directory, by its canonical directory. */
  datatype Found = Found(dir: Path, entry: Entry)

  ghost function Below(t: Tree, p: Path): set<Path> {
    set q | q in t.dirs && p <= q
  }

  lemma ChildIsBelow(t: Tree, p: Path, n: Name)
    requires p in t.dirs
    ensures Below(t, p + [n]) < Below(t, p)
  {
    assert p in Below(t, p) && p !in Below(t, p + [n]);
  }

  /** One walk: the entries below `p` in order, without following links. */
  function Listing(t: Tree, p: Path): seq<Found>
    requires t.Valid() && p in t.dirs
    decreases Below(t, p), |t.dirs[p]| + 1
  {
    ListFrom(t, p, 0)
  }

  function ListFrom(t: Tree, p: Path, i: nat): seq<Found>
    requires t.Valid() && p in t.dirs && i <= |t.dirs[p]|
    decreases Below(t, p), |t.dirs[p]| - i
  {
    if i == |t.dirs[p]| then []
    else ListEntry(t, p, i) + ListFrom(t, p, i + 1)
  }

  function ListEntry(t: Tree, p: Path, i: nat): seq<Found>
    requires t.Valid() && p in t.dirs && i < |t.dirs[p]|
    decreases Below(t, p), |t.dirs[p]| - i, 0
  {
    var e := t.EntryAt(p, i);
    if e.name in t.hidden then []
    else if e.kind.SubDir? then
      ChildIsBelow(t, p, e.name);
      Listing(t, p + [e.name])
    else [Found(p, e)]
  }

  lemma {:induction false} InListFrom(t: Tree, p: Path, i: nat, f: Found)
    requires t.Valid() && p in t.dirs && i <= |t.dirs[p]|
    ensures f in ListFrom(t, p, i) <==> exists j | i <= j < |t.dirs[p]| :: f in ListEntry(t, p, j)
    decreases |t.dirs[p]| - i
  {
    if i < |t.dirs[p]| {
      InListFrom(t, p, i + 1, f);
      assert ListFrom(t, p, i) == ListEntry(t, p, i) + ListFrom(t, p, i + 1);
      if f in ListFrom(t, p, i + 1) {
        var j :| i + 1 <= j < |t.dirs[p]| && f in ListEntry(t, p, j);
        assert i <= j && f in ListEntry(t, p, j);
      }
      if j :| i <= j < |t.dirs[p]| && f in ListEntry(t, p, j) {
        assert j == i || (i + 1 <= j && f in ListEntry(t, p, j));
      }
    }
  }

  /** A listed entry is an entry of its directory, which lies below the root of the walk. */
  lemma {:induction false} ListedIsBelow(t: Tree, p: Path, f: Found)
    requires t.Valid() && p in t.dirs && f in Listing(t, p)
    ensures p <= f.dir && f.dir in t.dirs && f.entry in t.dirs[f.dir] && !f.entry.kind.SubDir?
        && f.entry.name !in t.hidden
    ensures f.entry.kind.LinkTo? ==> f.entry.kind.target in t.dirs
    decreases Below(t, p)
  {
    InListFrom(t, p, 0, f);
    var j :| 0 <= j < |t.dirs[p]| && f in ListEntry(t, p, j);
    var e := t.EntryAt(p, j);
    if e.kind.SubDir? {
      ChildIsBelow(t, p, e.name);
      ListedIsBelow(t, p + [e.name], f);
    }
  }

  /** A directory that the walk of `p` descends through is listed in full by that walk. */
  lemma {:induction false} ListedThrough(t: Tree, p: Path, q: Path, g: Found, f: Found)
    requires t.Valid() && p in t.dirs && q in t.dirs && p <= q <= g.dir
    requires g in Listing(t, p) && f in Listing(t, q)
    ensures f in Listing(t, p)
    decreases Below(t, p)
  {
    if p != q {
      InListFrom(t, p, 0, g);
      var j :| 0 <= j < |t.dirs[p]| && g in ListEntry(t, p, j);
      var e := t.EntryAt(p, j);
      assert |p| < |q| <= |g.dir|;
      assert e.kind.SubDir?;
      var child := p + [e.name];
      ChildIsBelow(t, p, e.name);
      ListedIsBelow(t, child, g);
      assert child <= q;
      ListedThrough(t, child, q, g, f);
      assert f in ListEntry(t, p, j);
      InListFrom(t, p, 0, f);
    }
  }

  // ---- Following links --------------------------------------------------------------------

  /** The directories from `root` down to `exit`, through which one walk of the branch was left. */
  datatype Span = Span(root: Path, exit: Path)
  {
    predicate Covers(p: Path) {
      root <= p <= exit
    }
  }

  function LeftThrough(walked: seq<Span>, exit: Path): seq<Span>
    requires walked != []
  {
    walked[|walked| - 1 := Span(walked[|walked| - 1].root, exit)]
  }

  /** The branch extended by the walk a link in `exit` to `target` opens; `None` when that would walk
      in circles. */
  function Followed(walked: seq<Span>, target: Path, exit: Path): Option<seq<Span>>
    requires walked != []
  {
    var updated := LeftThrough(walked, exit);
    if exists k | 0 <= k < |updated| :: updated[k].Covers(target) then None
    else Some(updated + [Span(target, target)])
  }

  method FollowLink(target: Path, exit: Path, walked: seq<Span>) returns (r: Option<seq<Span>>)
    requires walked != []
    ensures r == Followed(walked, target, exit)
  {
    var extended := walked;
    extended := extended[|extended| - 1 := extended[|extended| - 1].(exit := exit)];
    for k := 0 to |extended|
      invariant forall i | 0 <= i < k :: !extended[i].Covers(target)
    {
      if extended[k].root <= target && target <= extended[k].exit {
        assert LeftThrough(walked, exit)[k].Covers(target);
        return None;
      }
    }
    r := Some(extended + [Span(target, target)]);
  }

  ghost predicate IsBranch(t: Tree, walked: seq<Span>) {
    && walked != []
    && (forall k | 0 <= k < |walked| :: walked[k].root in t.dirs && walked[k].root <= walked[k].exit)
    && (forall i, k | 0 <= i < k < |walked| :: walked[i].root != walked[k].root)
  }

  function Top(walked: seq<Span>): Path
    requires walked != []
  {
    walked[|walked| - 1].root
  }

  /** Following a link keeps the roots of the walks on the branch pairwise distinct. */
  lemma FollowKeepsBranch(t: Tree, walked: seq<Span>, target: Path, exit: Path)
    requires IsBranch(t, walked) && target in t.dirs && Top(walked) <= exit && Followed(walked, target, exit).Some?
    ensures var next := Followed(walked, target, exit).value;
      IsBranch(t, next) && |next| == |walked| + 1 && Top(next) == target && forall k | 0 <= k < |walked| ::
          next[k].root == walked[k].root && walked[k].root != target
  {
    var updated := LeftThrough(walked, exit);
    forall k | 0 <= k < |walked| ensures walked[k].root != target {
      assert !updated[k].Covers(target);
    }
  }

  ghost function Roots(walked: seq<Span>): set<Path> {
    set k | 0 <= k < |walked| :: walked[k].root
  }

  /** As many roots as walks: the nesting depth is at most the number of directories. */
  lemma {:induction false} DepthIsBounded(t: Tree, walked: seq<Span>)
    requires IsBranch(t, walked)
    ensures |Roots(walked)| == |walked| <= |t.dirs|
  {
    RootsCount(walked, |walked|);
    var roots := Roots(walked);
    assert roots == set k | 0 <= k < |walked| :: walked[k].root;
    assert roots <= t.dirs.Keys;
    assert t.dirs.Keys == roots + (t.dirs.Keys - roots);
    assert |t.dirs.Keys| == |t.dirs|;
  }

  lemma OneMoreRoot(walked: seq<Span>, n: nat)
    requires n < |walked| && forall i | 0 <= i < n :: walked[i].root != walked[n].root
    ensures var before := set k | 0 <= k < n :: walked[k].root;
      walked[n].root !in before && (set k | 0 <= k < n + 1 :: walked[k].root) == before + {walked[n].root}
  {
  }

  lemma {:induction false} RootsCount(walked: seq<Span>, n: nat)
    requires n <= |walked| && forall i, k | 0 <= i < k < |walked| :: walked[i].root != walked[k].root
    ensures |(set k | 0 <= k < n :: walked[k].root)| == n
  {
    if n > 0 {
      RootsCount(walked, n - 1);
      OneMoreRoot(walked, n - 1);
    }
  }

  // ---- The walk, recursively --------------------------------------------------------------

  /** A file with the path it is shown under. */
  datatype Hit = Hit(shown: Path, found: Found)

  /** One walk under way: what is left of it, the path of its root as shown, and the branch. */
  datatype Frame = Frame(remaining: seq<Found>, prefix: Path, walked: seq<Span>)
  {
    ghost predicate Valid(t: Tree) {
      && t.Valid() && IsBranch(t, walked)
      && forall f | f in remaining :: f in Listing(t, Top(walked))
    }

    ghost predicate Ready(t: Tree) {
      Valid(t) && remaining != []
    }

    function Shown(f: Found): Path
      requires walked != [] && Top(walked) <= f.dir
    {
      prefix + f.dir[|Top(walked)|..] + [f.entry.name]
    }

    function Rest(): Frame
      requires remaining != []
    {
      this.(remaining := remaining[1..])
    }
  }

  ghost function Unwalked(t: Tree, walked: seq<Span>): set<Path> {
    t.dirs.Keys - Roots(walked)
  }

  /** The walk that the first remaining entry opens, if it is a link that may be followed. */
  function Opened(t: Tree, frame: Frame): Option<Frame>
    requires frame.Ready(t)
  {
    var f := frame.remaining[0];
    ListedIsBelow(t, Top(frame.walked), f);
    if f.entry.kind.LinkTo? && Followed(frame.walked, f.entry.kind.target, f.dir).Some? then
      var target := f.entry.kind.target;
      Some(Frame(Listing(t, target), frame.Shown(f), Followed(frame.walked, target, f.dir).value))
    else None
  }

  lemma OpenedIsDeeper(t: Tree, frame: Frame)
    requires frame.Ready(t)
    ensures frame.Rest().Valid(t)
    ensures Opened(t, frame).Some? ==>
      && Opened(t, frame).value.Valid(t) && |Opened(t, frame).value.walked| == |frame.walked| + 1
      && Unwalked(t, Opened(t, frame).value.walked) < Unwalked(t, frame.walked)
  {
    assert forall f | f in frame.remaining[1..] :: f in frame.remaining;
    if Opened(t, frame).Some? {
      var f, next := frame.remaining[0], Opened(t, frame).value;
      ListedIsBelow(t, Top(frame.walked), f);
      FollowKeepsBranch(t, frame.walked, f.entry.kind.target, f.dir);
      assert Roots(next.walked) == Roots(frame.walked) + {f.entry.kind.target} by {
        assert next.walked[|frame.walked|].root == f.entry.kind.target;
        assert forall k | 0 <= k < |frame.walked| :: next.walked[k].root == frame.walked[k].root;
      }
      assert f.entry.kind.target in Unwalked(t, frame.walked);
    }
  }

  function FirstHits(t: Tree, frame: Frame): seq<Hit>
    requires frame.Ready(t)
  {
    var f := frame.remaining[0];
    ListedIsBelow(t, Top(frame.walked), f);
    if f.entry.kind.File? then [Hit(frame.Shown(f), f)] else []
  }

  /** Every file in order, a linked directory walked where its link stands. */
  ghost function WalkAll(t: Tree, frame: Frame): seq<Hit>
    requires frame.Valid(t)
    decreases Unwalked(t, frame.walked), |frame.remaining|
  {
    if frame.remaining == [] then []
    else
      OpenedIsDeeper(t, frame);
      FirstHits(t, frame)
      + (if Opened(t, frame).Some? then WalkAll(t, Opened(t, frame).value) else [])
      + WalkAll(t, frame.Rest())
  }

  // ---- The walk, with a stack -------------------------------------------------------------

  /** How many rounds the stack takes to finish one walk and those it opens. */
  ghost function Rounds(t: Tree, frame: Frame): nat
    requires frame.Valid(t)
    decreases Unwalked(t, frame.walked), |frame.remaining|
  {
    if frame.remaining == [] then 1
    else
      OpenedIsDeeper(t, frame);
      1 + (if Opened(t, frame).Some? then Rounds(t, Opened(t, frame).value) else 0) + Rounds(t, frame.Rest())
  }

  ghost predicate ValidStack(t: Tree, stack: seq<Frame>) {
    forall k {:trigger stack[k]} | 0 <= k < |stack| :: stack[k].Valid(t) && |stack[k].walked| == k + 1
  }

  ghost function StackRounds(t: Tree, stack: seq<Frame>): nat
    requires ValidStack(t, stack)
  {
    if stack == [] then 0
    else
      assert stack[|stack| - 1].Valid(t);
      assert ValidStack(t, stack[..|stack| - 1]);
      Rounds(t, stack[|stack| - 1]) + StackRounds(t, stack[..|stack| - 1])
  }

  /** What is still to come: the innermost walk first. */
  ghost function StackHits(t: Tree, stack: seq<Frame>): seq<Hit>
    requires ValidStack(t, stack)
  {
    if stack == [] then []
    else
      assert stack[|stack| - 1].Valid(t);
      assert ValidStack(t, stack[..|stack| - 1]);
      WalkAll(t, stack[|stack| - 1]) + StackHits(t, stack[..|stack| - 1])
  }

  /** The stack after its innermost walk handed out an entry. */
  function Advanced(t: Tree, stack: seq<Frame>): seq<Frame>
    requires stack != [] && stack[|stack| - 1].Ready(t)
  {
    var top := |stack| - 1;
    stack[top := stack[top].Rest()] + (if Opened(t, stack[top]).Some? then [Opened(t, stack[top]).value] else [])
  }

  lemma PushStack(t: Tree, stack: seq<Frame>, frame: Frame)
    requires ValidStack(t, stack) && frame.Valid(t) && |frame.walked| == |stack| + 1
    ensures ValidStack(t, stack + [frame])
    ensures StackHits(t, stack + [frame]) == WalkAll(t, frame) + StackHits(t, stack)
    ensures StackRounds(t, stack + [frame]) == Rounds(t, frame) + StackRounds(t, stack)
  {
    var pushed := stack + [frame];
    assert pushed[..|pushed| - 1] == stack && pushed[|pushed| - 1] == frame;
  }

  lemma AdvanceStack(t: Tree, stack: seq<Frame>)
    requires ValidStack(t, stack) && stack != [] && stack[|stack| - 1].Ready(t)
    ensures var next := Advanced(t, stack);
      && ValidStack(t, next) && StackRounds(t, next) < StackRounds(t, stack)
      && StackHits(t, stack) == FirstHits(t, stack[|stack| - 1]) + StackHits(t, next)
  {
    var top := |stack| - 1;
    var frame, below := stack[top], stack[..top];
    OpenedIsDeeper(t, frame);
    assert ValidStack(t, below);
    PushStack(t, below, frame.Rest());
    assert stack[top := frame.Rest()] == below + [frame.Rest()];
    var rest, lower := WalkAll(t, frame.Rest()), StackHits(t, below);
    if Opened(t, frame).Some? {
      var inner := Opened(t, frame).value;
      PushStack(t, below + [frame.Rest()], inner);
      Regroup(FirstHits(t, frame), WalkAll(t, inner), rest, lower);
    } else {
      assert stack[top := frame.Rest()] + [] == stack[top := frame.Rest()];
      Regroup(FirstHits(t, frame), [], rest, lower);
    }
  }

  lemma Regroup<T>(a: seq<T>, b: seq<T>, c: seq<T>, d: seq<T>)
    ensures a + b + c + d == a + (b + (c + d)) && [] + (c + d) == c + d
  {
  }

  /** One entry: the file it is, or the walk it opens. */
  method Visit(t: Tree, frame: Frame) returns (hits: seq<Hit>, inner: Option<Frame>)
    requires frame.Ready(t)
    ensures hits == FirstHits(t, frame) && inner == Opened(t, frame)
  {
    var f := frame.remaining[0];
    ListedIsBelow(t, Top(frame.walked), f);
    hits, inner := [], None;
    if f.entry.kind.LinkTo? {
      var target := f.entry.kind.target;
      var walked := FollowLink(target, f.dir, frame.walked);
      if walked.Some? {
        inner := Some(Frame(Listing(t, target), frame.Shown(f), walked.value));
      }
    } else if f.entry.kind.File? {
      hits := [Hit(frame.Shown(f), f)];
    }
  }

  /** What has been found and what is still to come make up the whole walk. */
  ghost predicate Walking(t: Tree, stack: seq<Frame>, hits: seq<Hit>, all: seq<Hit>) {
    ValidStack(t, stack) && hits + StackHits(t, stack) == all
  }

  lemma WalkingAdvances(t: Tree, stack: seq<Frame>, hits: seq<Hit>, all: seq<Hit>)
    requires Walking(t, stack, hits, all) && stack != [] && stack[|stack| - 1].Ready(t)
    ensures var next := Advanced(t, stack);
      Walking(t, next, hits + FirstHits(t, stack[|stack| - 1]), all) && StackRounds(t, next) < StackRounds(t, stack)
  {
    AdvanceStack(t, stack);
    var first, rest := FirstHits(t, stack[|stack| - 1]), StackHits(t, Advanced(t, stack));
    assert hits + (first + rest) == (hits + first) + rest;
  }

  lemma WalkingStarts(t: Tree, root: Path)
    requires t.Valid() && root in t.dirs
    ensures Start(t, root).Valid(t) && Walking(t, [Start(t, root)], [], WalkAll(t, Start(t, root)))
  {
    StartIsValid(t, root);
    var start := Start(t, root);
    PushStack(t, [], start);
    assert [] + [start] == [start] && WalkAll(t, start) + [] == WalkAll(t, start);
    assert [] + StackHits(t, [start]) == StackHits(t, [start]);
  }

  lemma WalkingEnds(t: Tree, hits: seq<Hit>, all: seq<Hit>)
    requires Walking(t, [], hits, all)
    ensures hits == all
  {
    assert hits + [] == hits;
  }

  /** The explicit stack yields the recursive walk, ends on every finite tree however its links run,
      and never nests deeper than there are directories. */
  method WalkTree(t: Tree, root: Path) returns (hits: seq<Hit>)
    requires t.Valid() && root in t.dirs
    ensures Start(t, root).Valid(t) && hits == WalkAll(t, Start(t, root))
  {
    var stack := [Start(t, root)];
    hits := [];
    WalkingStarts(t, root);
    while stack != []
      invariant Walking(t, stack, hits, WalkAll(t, Start(t, root)))
      decreases StackRounds(t, stack)
    {
      StackDepth(t, stack);
      assert |stack| <= |t.dirs|;
      var top := |stack| - 1;
      if stack[top].remaining == [] {
        PopStack(t, stack);
        stack := stack[..top];
        continue;
      }
      assert stack[top].Valid(t);
      WalkingAdvances(t, stack, hits, WalkAll(t, Start(t, root)));
      ghost var next := Advanced(t, stack);
      var found, inner := Visit(t, stack[top]);
      hits := hits + found;
      stack := stack[top := stack[top].Rest()];
      stack := stack + (if inner.Some? then [inner.value] else []);
      assert stack == next;
    }
    WalkingEnds(t, hits, WalkAll(t, Start(t, root)));
  }

  function Start(t: Tree, root: Path): Frame
    requires t.Valid() && root in t.dirs
  {
    Frame(Listing(t, root), root, [Span(root, root)])
  }

  lemma StartIsValid(t: Tree, root: Path)
    requires t.Valid() && root in t.dirs
    ensures Start(t, root).Valid(t) && 1 <= |t.dirs|
  {
    DepthIsBounded(t, [Span(root, root)]);
  }

  lemma PopStack(t: Tree, stack: seq<Frame>)
    requires ValidStack(t, stack) && stack != [] && stack[|stack| - 1].remaining == []
    ensures ValidStack(t, stack[..|stack| - 1]) && StackRounds(t, stack[..|stack| - 1]) < StackRounds(t, stack)
    ensures StackHits(t, stack[..|stack| - 1]) == StackHits(t, stack)
  {
    assert [] + StackHits(t, stack[..|stack| - 1]) == StackHits(t, stack[..|stack| - 1]);
  }

  lemma StackDepth(t: Tree, stack: seq<Frame>)
    requires ValidStack(t, stack)
    ensures |stack| <= |t.dirs|
  {
    if stack != [] {
      assert stack[|stack| - 1].Valid(t);
      DepthIsBounded(t, stack[|stack| - 1].walked);
    }
  }

  // ---- No file is lost --------------------------------------------------------------------

  /** A link to a directory. */
  datatype Link = Link(dir: Path, name: Name, target: Path)
  {
    function AsFound(): Found {
      Found(dir, Entry(name, LinkTo(target)))
    }
  }

  /** The root of the walk that the first `k` links of a chain lead to. */
  function ChainRoot(root: Path, chain: seq<Link>, k: nat): Path
    requires k <= |chain|
  {
    if k == 0 then root else chain[k - 1].target
  }

  ghost predicate IsListed(t: Tree, p: Path, f: Found) {
    t.Valid() && p in t.dirs && f in Listing(t, p)
  }

  ghost predicate LinkIsListed(t: Tree, root: Path, chain: seq<Link>, k: nat)
    requires k < |chain|
  {
    IsListed(t, ChainRoot(root, chain, k), chain[k].AsFound())
  }

  /** Links that each lie in the walk the one before leads to. */
  ghost predicate IsChain(t: Tree, root: Path, chain: seq<Link>) {
    forall k {:trigger LinkIsListed(t, root, chain, k)} | 0 <= k < |chain| :: LinkIsListed(t, root, chain, k)
  }

  ghost predicate LeadsTo(t: Tree, root: Path, chain: seq<Link>, f: Found) {
    IsChain(t, root, chain) && IsListed(t, ChainRoot(root, chain, |chain|), f)
  }

  /** The file lies in a directory that links and subdirectories lead to. */
  ghost predicate IsReachable(t: Tree, root: Path, f: Found) {
    exists chain :: LeadsTo(t, root, chain, f)
  }

  /** The branch after the first `k` links, if all of them may be followed. */
  ghost function WalkedAlong(root: Path, chain: seq<Link>, k: nat): (r: Option<seq<Span>>)
    requires k <= |chain|
    ensures r.Some? ==> |r.value| == k + 1
  {
    if k == 0 then Some([Span(root, root)])
    else
      var before := WalkedAlong(root, chain, k - 1);
      if before.None? then None else Followed(before.value, chain[k - 1].target, chain[k - 1].dir)
  }

  /** The `j`-th walk of the branch, and where it was left, unless it is the last. */
  predicate SpanIsOfChain(root: Path, chain: seq<Link>, walked: seq<Span>, j: nat)
    requires j < |walked| <= |chain| + 1
  {
    walked[j].root == ChainRoot(root, chain, j) && (j + 1 < |walked| ==> walked[j].exit == chain[j].dir)
  }

  ghost predicate SpansAreOfChain(root: Path, chain: seq<Link>, walked: seq<Span>)
    requires |walked| <= |chain| + 1
  {
    forall j {:trigger SpanIsOfChain(root, chain, walked, j)} | 0 <= j < |walked| ::
        SpanIsOfChain(root, chain, walked, j)
  }

  lemma SpansStep(root: Path, chain: seq<Link>, walked: seq<Span>, k: nat)
    requires k < |chain| && |walked| == k + 1 && SpansAreOfChain(root, chain, walked)
    requires Followed(walked, chain[k].target, chain[k].dir).Some?
    ensures SpansAreOfChain(root, chain, Followed(walked, chain[k].target, chain[k].dir).value)
  {
    var next := Followed(walked, chain[k].target, chain[k].dir).value;
    forall j | 0 <= j < |next| ensures SpanIsOfChain(root, chain, next, j) {
      if j <= k {
        assert SpanIsOfChain(root, chain, walked, j);
      }
    }
  }

  lemma {:induction false} SpansOfChain(root: Path, chain: seq<Link>, k: nat)
    requires k <= |chain| && WalkedAlong(root, chain, k).Some?
    ensures SpansAreOfChain(root, chain, WalkedAlong(root, chain, k).value)
  {
    if k > 0 {
      SpansOfChain(root, chain, k - 1);
      SpansStep(root, chain, WalkedAlong(root, chain, k - 1).value, k - 1);
    }
  }

  /** The `k`-th link leads into a directory that the walk of the `j`-th went through. */
  predicate LeadsBack(root: Path, chain: seq<Link>, k: nat, j: nat)
    requires j <= k < |chain|
  {
    ChainRoot(root, chain, j) <= chain[k].target <= chain[j].dir
  }

  lemma BlockedBySpan(root: Path, chain: seq<Link>, walked: seq<Span>, k: nat) returns (j: nat)
    requires k < |chain| && |walked| == k + 1 && SpansAreOfChain(root, chain, walked)
    requires Followed(walked, chain[k].target, chain[k].dir).None?
    ensures j <= k && LeadsBack(root, chain, k, j)
  {
    var updated := LeftThrough(walked, chain[k].dir);
    j :| 0 <= j < |updated| && updated[j].Covers(chain[k].target);
    assert SpanIsOfChain(root, chain, walked, j);
  }

  /** The first link that may not be followed leads into a directory an earlier walk went through. */
  lemma {:induction false} BlockedLink(root: Path, chain: seq<Link>, n: nat) returns (k: nat, j: nat)
    requires n <= |chain| && WalkedAlong(root, chain, n).None?
    ensures j <= k < |chain| && LeadsBack(root, chain, k, j)
  {
    if WalkedAlong(root, chain, n - 1).None? {
      k, j := BlockedLink(root, chain, n - 1);
    } else {
      SpansOfChain(root, chain, n - 1);
      k := n - 1;
      j := BlockedBySpan(root, chain, WalkedAlong(root, chain, n - 1).value, k);
    }
  }

  function WithoutLoop(chain: seq<Link>, k: nat, j: nat): seq<Link>
    requires j <= k < |chain|
  {
    chain[..j] + chain[k + 1..]
  }

  /** Whatever the link leads to is listed by the earlier walk already. */
  lemma BackIsListed(t: Tree, root: Path, chain: seq<Link>, k: nat, j: nat, f: Found)
    requires IsChain(t, root, chain) && j <= k < |chain| && LeadsBack(root, chain, k, j)
    requires IsListed(t, chain[k].target, f)
    ensures IsListed(t, ChainRoot(root, chain, j), f)
  {
    assert LinkIsListed(t, root, chain, j);
    ListedThrough(t, ChainRoot(root, chain, j), chain[k].target, chain[j].AsFound(), f);
  }

  lemma ShorterRoot(root: Path, chain: seq<Link>, k: nat, j: nat, i: nat)
    requires j <= k < |chain| && i <= |WithoutLoop(chain, k, j)|
    ensures i <= j ==> ChainRoot(root, WithoutLoop(chain, k, j), i) == ChainRoot(root, chain, i)
    ensures i > j ==> ChainRoot(root, WithoutLoop(chain, k, j), i) == ChainRoot(root, chain, i - j + k + 1)
  {
  }

  /** The links between a walk and the directory below it that a later link leads back to can be left out. */
  lemma ShortenChain(t: Tree, root: Path, chain: seq<Link>, k: nat, j: nat, f: Found)
    requires LeadsTo(t, root, chain, f) && j <= k < |chain| && LeadsBack(root, chain, k, j)
    ensures LeadsTo(t, root, WithoutLoop(chain, k, j), f)
  {
    var shorter := WithoutLoop(chain, k, j);
    forall i | 0 <= i < |shorter| ensures LinkIsListed(t, root, shorter, i) {
      ShorterRoot(root, chain, k, j, i);
      if i < j {
        assert LinkIsListed(t, root, chain, i);
      } else {
        assert LinkIsListed(t, root, chain, i - j + k + 1);
        if i == j {
          BackIsListed(t, root, chain, k, j, chain[k + 1].AsFound());
        }
      }
    }
    ShorterRoot(root, chain, k, j, |shorter|);
    if |shorter| == j {
      BackIsListed(t, root, chain, k, j, f);
    }
  }

  lemma {:induction false} FollowableChain(t: Tree, root: Path, chain: seq<Link>, f: Found) returns (good: seq<Link>)
    requires LeadsTo(t, root, chain, f)
    ensures LeadsTo(t, root, good, f) && WalkedAlong(root, good, |good|).Some?
    decreases |chain|
  {
    if WalkedAlong(root, chain, |chain|).Some? {
      good := chain;
    } else {
      var k, j := BlockedLink(root, chain, |chain|);
      ShortenChain(t, root, chain, k, j, f);
      good := FollowableChain(t, root, WithoutLoop(chain, k, j), f);
    }
  }

  ghost predicate IsHit(hits: seq<Hit>, f: Found) {
    exists h :: h in hits && h.found == f
  }

  function From(frame: Frame, i: nat): Frame
    requires i <= |frame.remaining|
  {
    frame.(remaining := frame.remaining[i..])
  }

  ghost predicate FirstContributes(t: Tree, frame: Frame, f: Found) {
    frame.Ready(t) &&
    (IsHit(FirstHits(t, frame), f) || (Opened(t, frame).Some? && Opened(t, frame).value.Valid(t)
        && IsHit(WalkAll(t, Opened(t, frame).value), f)))
  }

  /** What an entry contributes is part of the walk it remains in. */
  lemma {:induction false} ContributesAt(t: Tree, frame: Frame, i: nat, f: Found)
    requires frame.Valid(t) && i < |frame.remaining| && FirstContributes(t, From(frame, i), f)
    ensures IsHit(WalkAll(t, frame), f)
    decreases i
  {
    OpenedIsDeeper(t, frame);
    if i == 0 {
      assert frame.remaining[0..] == frame.remaining && From(frame, 0) == frame;
    } else {
      assert frame.Rest().remaining[i - 1..] == frame.remaining[i..] && From(frame.Rest(), i - 1) == From(frame, i);
      ContributesAt(t, frame.Rest(), i - 1, f);
    }
  }

  lemma FromIsReady(t: Tree, frame: Frame, i: nat)
    requires frame.Valid(t) && i < |frame.remaining|
    ensures From(frame, i).Ready(t) && From(frame, i).remaining[0] == frame.remaining[i]
  {
    assert forall f | f in frame.remaining[i..] :: f in frame.remaining;
  }

  /** The frame of a full walk at the end of the first `k` links. */
  ghost predicate IsAt(t: Tree, root: Path, chain: seq<Link>, k: nat, frame: Frame) {
    && k <= |chain| && WalkedAlong(root, chain, k) == Some(frame.walked) && frame.Valid(t)
    && Top(frame.walked) in t.dirs && frame.remaining == Listing(t, Top(frame.walked))
  }

  lemma FileIsHit(t: Tree, frame: Frame, f: Found)
    requires frame.Valid(t) && f in frame.remaining && f.entry.kind.File?
    ensures IsHit(WalkAll(t, frame), f)
  {
    var i :| 0 <= i < |frame.remaining| && frame.remaining[i] == f;
    FromIsReady(t, frame, i);
    ListedIsBelow(t, Top(frame.walked), f);
    assert Hit(From(frame, i).Shown(f), f) in FirstHits(t, From(frame, i));
    ContributesAt(t, frame, i, f);
  }

  lemma LinkOpens(t: Tree, root: Path, chain: seq<Link>, k: nat, frame: Frame) returns (i: nat)
    requires IsAt(t, root, chain, k, frame) && k < |chain| && IsChain(t, root, chain)
        && WalkedAlong(root, chain, k + 1).Some?
    ensures i < |frame.remaining| && From(frame, i).Ready(t)
    ensures Opened(t, From(frame, i)).Some? && IsAt(t, root, chain, k + 1, Opened(t, From(frame, i)).value)
  {
    SpansOfChain(root, chain, k);
    assert SpanIsOfChain(root, chain, frame.walked, k) && LinkIsListed(t, root, chain, k);
    i :| 0 <= i < |frame.remaining| && frame.remaining[i] == chain[k].AsFound();
    FromIsReady(t, frame, i);
    OpenedIsDeeper(t, From(frame, i));
  }

  lemma {:induction false} ChainIsWalked(t: Tree, root: Path, chain: seq<Link>, k: nat, frame: Frame, f: Found)
    requires LeadsTo(t, root, chain, f) && f.entry.kind.File? && WalkedAlong(root, chain, |chain|).Some?
    requires IsAt(t, root, chain, k, frame)
    ensures IsHit(WalkAll(t, frame), f)
    decreases |chain| - k
  {
    if k == |chain| {
      SpansOfChain(root, chain, k);
      assert SpanIsOfChain(root, chain, frame.walked, k);
      FileIsHit(t, frame, f);
    } else {
      EarlierAreFollowed(root, chain, k + 1, |chain|);
      var i := LinkOpens(t, root, chain, k, frame);
      ChainIsWalked(t, root, chain, k + 1, Opened(t, From(frame, i)).value, f);
      ContributesAt(t, frame, i, f);
    }
  }

  lemma {:induction false} EarlierAreFollowed(root: Path, chain: seq<Link>, k: nat, n: nat)
    requires k <= n <= |chain| && WalkedAlong(root, chain, n).Some?
    ensures WalkedAlong(root, chain, k).Some?
    decreases n - k
  {
    if k < n {
      EarlierAreFollowed(root, chain, k, n - 1);
    }
  }

  /** Refusing the links that walk in circles loses no file: every file that subdirectories and links
      lead to is found, whatever the links. */
  lemma EveryReachableFileIsFound(t: Tree, root: Path, f: Found)
    requires t.Valid() && root in t.dirs && f.entry.kind.File? && IsReachable(t, root, f)
    ensures Start(t, root).Valid(t) && IsHit(WalkAll(t, Start(t, root)), f)
  {
    StartIsValid(t, root);
    var chain :| LeadsTo(t, root, chain, f);
    var good := FollowableChain(t, root, chain, f);
    ChainIsWalked(t, root, good, 0, Start(t, root), f);
  }

  lemma LinkExtendsChain(t: Tree, root: Path, chain: seq<Link>, link: Link)
    requires LeadsTo(t, root, chain, link.AsFound())
    ensures IsChain(t, root, chain + [link]) && ChainRoot(root, chain + [link], |chain| + 1) == link.target
  {
    var longer := chain + [link];
    forall k | 0 <= k < |longer| ensures LinkIsListed(t, root, longer, k) {
      assert k < |chain| ==> LinkIsListed(t, root, chain, k);
      assert k > 0 ==> longer[k - 1] == chain[k - 1];
    }
  }

  lemma {:induction false} HitsAreReachable(t: Tree, root: Path, chain: seq<Link>, frame: Frame, h: Hit)
    requires frame.Valid(t) && IsChain(t, root, chain) && ChainRoot(root, chain, |chain|) == Top(frame.walked)
        && Top(frame.walked) in t.dirs
    requires h in WalkAll(t, frame)
    ensures h.found.entry.kind.File? && IsReachable(t, root, h.found)
    decreases Unwalked(t, frame.walked), |frame.remaining|
  {
    OpenedIsDeeper(t, frame);
    var f := frame.remaining[0];
    assert IsListed(t, Top(frame.walked), f);
    if h in FirstHits(t, frame) {
      assert LeadsTo(t, root, chain, f);
    } else if Opened(t, frame).Some? && h in WalkAll(t, Opened(t, frame).value) {
      var link := Link(f.dir, f.entry.name, f.entry.kind.target);
      assert link.AsFound() == f;
      LinkExtendsChain(t, root, chain, link);
      HitsAreReachable(t, root, chain + [link], Opened(t, frame).value, h);
    } else {
      HitsAreReachable(t, root, chain, frame.Rest(), h);
    }
  }

  /** The walk finds exactly the files that subdirectories and links lead to. */
  lemma FoundIffReachable(t: Tree, root: Path, f: Found)
    requires t.Valid() && root in t.dirs
    ensures Start(t, root).Valid(t)
    ensures IsHit(WalkAll(t, Start(t, root)), f) <==> f.entry.kind.File? && IsReachable(t, root, f)
  {
    StartIsValid(t, root);
    if f.entry.kind.File? && IsReachable(t, root, f) {
      EveryReachableFileIsFound(t, root, f);
    } else if IsHit(WalkAll(t, Start(t, root)), f) {
      var h :| h in WalkAll(t, Start(t, root)) && h.found == f;
      HitsAreReachable(t, root, [], Start(t, root), h);
    }
  }
}
