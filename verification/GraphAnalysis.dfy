/** Retained-size attribution over a module graph: the whole analysis. */
module GraphAnalysis {
  import opened Digraphs
  import opened DepthFirst
  import opened DominatorForest
  import opened Dominators
  import opened RetainedSizes
  import opened Weights
  import opened Worklist
  import opened Wrappers

  datatype Import = Import(target: nat, isDynamic: bool)

  /** Modules are numbered 0..n; `entries` are the user-defined entry modules. */
  datatype ModuleGraph = ModuleGraph(imports: seq<seq<Import>>, bytes: seq<nat>, entries: seq<nat>)
  {
    ghost predicate Valid() {
      && |imports| + 1 < USIZE_MAX
      && |bytes| == |imports|
      && (forall v, i | 0 <= v < |imports| && 0 <= i < |imports[v]| :: imports[v][i].target < |imports|)
      && (forall e: nat | e in entries :: e < |imports|)
    }

    function VirtualRoot(): nat {
      |imports|
    }

    /** The edges of the initial load, below a virtual root whose successors are the entries. */
    function Static(): Digraph {
      Digraph(seq(|imports| + 1, v requires 0 <= v <= |imports| =>
                    if v == |imports| then entries else Targets(imports[v], false)))
    }

    /** All edges, dynamic imports included, below the same virtual root. */
    function Full(): Digraph {
      Digraph(seq(|imports| + 1, v requires 0 <= v <= |imports| =>
                    if v == |imports| then entries else Targets(imports[v], true)))
    }

    ghost predicate StaticallyReachable(v: nat) {
      v < |imports| && Static().Reaches(VirtualRoot(), v)
    }

    ghost predicate DynamicOnly(v: nat) {
      v < |imports| && Full().Reaches(VirtualRoot(), v) && !StaticallyReachable(v)
    }

    ghost function StaticModules(): set<nat> {
      set v | 0 <= v < |imports| && StaticallyReachable(v) :: v
    }

    /** The modules that would leave the initial load if `v` did. */
    ghost function LostWithout(v: nat): set<nat> {
      set u | 0 <= u < |imports| && StaticallyReachable(u) && !Static().ReachesWithout(VirtualRoot(), u, v) :: u
    }

    ghost predicate StrictlyDominates(d: nat, v: nat) {
      d != v && Static().Dominates(VirtualRoot(), d, v)
    }

    /** `d` strictly dominates `v`, and every strict dominator of `v` dominates `d`. */
    ghost predicate ImmediatelyDominates(d: nat, v: nat) {
      && StrictlyDominates(d, v)
      && forall c | StrictlyDominates(c, v) :: Static().Dominates(VirtualRoot(), c, d)
    }
  }

  function Targets(imports: seq<Import>, withDynamic: bool): (r: seq<nat>)
    ensures forall t :: t in r <==> Import(t, false) in imports || (withDynamic && Import(t, true) in imports)
  {
    if imports == [] then []
    else
      var last := imports[|imports| - 1];
      Targets(imports[..|imports| - 1], withDynamic) + if withDynamic || !last.isDynamic then [last.target] else []
  }

  lemma ViewsAreValid(m: ModuleGraph)
    requires m.Valid()
    ensures m.Static().Valid() && m.Full().Valid()
  {
  }

  // ---- Preparing the dominator problem ----------------------------------------------------

  lemma DistinctFits(post: seq<nat>, n: nat)
    requires Distinct(post) && forall v: nat | v in post :: v < n
    ensures |post| <= n
  {
    var s := set v: nat | v in post;
    DistinctCard(post);
    BoundedCard(s, n);
  }

  lemma {:induction false} DistinctCard(post: seq<nat>)
    requires Distinct(post)
    ensures |set v: nat | v in post| == |post|
  {
    if post != [] {
      var rest, last := post[..|post| - 1], post[|post| - 1];
      DistinctCard(rest);
      assert (set v: nat | v in post) == (set v: nat | v in rest) + {last};
    }
  }

  lemma {:induction false} BoundedCard(s: set<nat>, n: nat)
    requires forall v: nat | v in s :: v < n
    ensures |s| <= n
  {
    if n > 0 {
      BoundedCard(s - {n - 1}, n - 1);
    }
  }

  /** The places from `j` on are filled in, and no other vertex has a number. */
  ghost predicate FilledFrom(post: seq<nat>, j: nat, numbers: seq<nat>)
    requires j <= |post|
  {
    && (forall k | j <= k < |post| :: post[k] < |numbers| && numbers[post[k]] == |post| - 1 - k)
    && forall v: nat | v < |numbers| && v !in post[j..] :: numbers[v] == USIZE_MAX
  }

  lemma FillNext(post: seq<nat>, j: nat, numbers: seq<nat>)
    requires Distinct(post) && j < |post| && post[j] < |numbers| && FilledFrom(post, j + 1, numbers)
    ensures FilledFrom(post, j, numbers[post[j] := |post| - 1 - j])
  {
    assert post[j..] == [post[j]] + post[j + 1..];
  }

  /** Number the vertices by their position in reverse post-order. */
  method RpoNumbers(post: seq<nat>, n: nat) returns (rpo: seq<nat>)
    requires Distinct(post) && forall v: nat | v in post :: v < n
    ensures |rpo| == n
    ensures forall i | 0 <= i < |post| :: post[i] < n && rpo[post[i]] == |post| - 1 - i
    ensures forall v | 0 <= v < n && v !in post :: rpo[v] == 0xFFFF_FFFF_FFFF_FFFF
  {
    var numbers := new nat[n](_ => USIZE_MAX);
    for i := 0 to |post|
      invariant FilledFrom(post, |post| - i, numbers[..])
    {
      var j := |post| - 1 - i;
      assert post[j] in post;
      ghost var before := numbers[..];
      numbers[post[j]] := i;
      assert numbers[..] == before[post[j] := i];
      FillNext(post, j, before);
    }
    assert post[0..] == post;
    rpo := numbers[..];
  }

  /** The reachable vertices other than the root, in reverse post-order. */
  method ReversedWithout(post: seq<nat>, root: nat) returns (order: seq<nat>)
    requires |post| > 0 && Distinct(post) && post[|post| - 1] == root
    ensures |order| == |post| - 1
    ensures forall i | 0 <= i < |order| :: order[i] == post[|post| - 2 - i]
  {
    order := [];
    for i := 0 to |post|
      invariant |order| == if i == 0 then 0 else i - 1
      invariant forall j | 0 <= j < |order| :: order[j] == post[|post| - 2 - j]
    {
      var v := post[|post| - 1 - i];
      if v != root {
        order := order + [v];
      }
    }
  }

  ghost predicate ReachablePredecessors(m: ModuleGraph, rpo: seq<nat>, upTo: nat, entriesDone: nat,
      preds: seq<seq<nat>>)
    requires upTo <= |m.imports| < |rpo| && entriesDone <= |m.entries|
  {
    && |preds| == |m.imports| + 1
    && forall v: nat, u: nat {:trigger u in preds[v]} | v < |preds| :: u in preds[v] <==>
         || (u < upTo && rpo[u] != USIZE_MAX && v in Targets(m.imports[u], false))
         || (u == m.VirtualRoot() && v in m.entries[..entriesDone])
  }

  lemma EntryAdds(m: ModuleGraph, rpo: seq<nat>, i: nat, preds: seq<seq<nat>>)
    requires m.Valid() && |rpo| == |m.imports| + 1 && i < |m.entries|
    requires ReachablePredecessors(m, rpo, |m.imports|, i, preds)
    ensures var e := m.entries[i];
      e < |preds| && ReachablePredecessors(m, rpo, |m.imports|, i + 1, preds[e := preds[e] + [|m.imports|]])
  {
    var e := m.entries[i];
    assert e in m.entries;
    assert m.entries[..i + 1] == m.entries[..i] + [e];
  }

  method StaticPredecessors(m: ModuleGraph, rpo: seq<nat>) returns (preds: seq<seq<nat>>)
    requires m.Valid() && |rpo| == |m.imports| + 1
    ensures ReachablePredecessors(m, rpo, |m.imports|, |m.entries|, preds)
  {
    var n := |m.imports|;
    preds := seq(n + 1, _ => []);
    assert m.entries[..0] == [];
    for from := 0 to n
      invariant ReachablePredecessors(m, rpo, from, 0, preds)
    {
      if rpo[from] == USIZE_MAX {
        continue;
      }
      ghost var before := preds;
      for i := 0 to |m.imports[from]|
        invariant |preds| == n + 1
        invariant forall v: nat, u: nat | 0 <= v < |preds| :: u in preds[v] <==>
                    u in before[v] || (u == from && v in Targets(m.imports[from][..i], false))
      {
        var Import(to, isDynamic) := m.imports[from][i];
        assert m.imports[from][..i + 1][..i] == m.imports[from][..i];
        if !isDynamic {
          preds := preds[to := preds[to] + [from]];
        }
      }
      assert m.imports[from][..|m.imports[from]|] == m.imports[from];
    }
    for i := 0 to |m.entries|
      invariant ReachablePredecessors(m, rpo, n, i, preds)
    {
      EntryAdds(m, rpo, i, preds);
      var e := m.entries[i];
      preds := preds[e := preds[e] + [n]];
    }
  }

  /** The tables number the vertices by their place in reverse post-order. */
  ghost predicate IsNumbering(m: ModuleGraph, post: seq<nat>, rpo: seq<nat>) {
    && m.Valid() && IsPostOrder(m.Static(), m.VirtualRoot(), post)
    && |rpo| == |m.imports| + 1
    && (forall v: nat | v in post :: v <= |m.imports|)
    && (forall i | 0 <= i < |post| :: post[i] < |rpo| && rpo[post[i]] == |post| - 1 - i)
    && (forall v | 0 <= v < |rpo| && v !in post :: rpo[v] == USIZE_MAX)
  }

  ghost predicate IsReversed(post: seq<nat>, order: seq<nat>) {
    |order| == |post| - 1 && forall i | 0 <= i < |order| :: order[i] == post[|post| - 2 - i]
  }

  lemma RanksAreValid(m: ModuleGraph, post: seq<nat>, rpo: seq<nat>)
    requires IsNumbering(m, post, rpo)
    ensures Ranks(m.VirtualRoot(), rpo).Valid()
  {
    DistinctFits(post, |m.imports| + 1);
    forall v, w | 0 <= v < |rpo| && 0 <= w < |rpo| && rpo[v] == rpo[w] != USIZE_MAX ensures v == w {
      var i :| 0 <= i < |post| && post[i] == v;
      var j :| 0 <= j < |post| && post[j] == w;
    }
    assert rpo[post[|post| - 1]] == 0;
  }

  lemma OrderListsAll(m: ModuleGraph, post: seq<nat>, order: seq<nat>, v: nat)
    requires IsPostOrder(m.Static(), m.VirtualRoot(), post) && IsReversed(post, order)
    requires m.Static().Reaches(m.VirtualRoot(), v) && v != m.VirtualRoot()
    ensures v in order
  {
    assert v in post;
    var i :| 0 <= i < |post| && post[i] == v;
    assert order[|post| - 2 - i] == post[i];
  }

  lemma LaterIsEarlier(m: ModuleGraph, post: seq<nat>, rpo: seq<nat>, order: seq<nat>, preds: seq<seq<nat>>, j: nat,
      l: nat)
    requires IsNumbering(m, post, rpo) && IsReversed(post, order) && |preds| == |rpo| && j < l < |post|
    requires post[l] in preds[post[j]]
    ensures Problem(m.Static(), Ranks(m.VirtualRoot(), rpo), order, preds).HasEarlierPredecessor(post[j])
  {
    var q := Problem(m.Static(), Ranks(m.VirtualRoot(), rpo), order, preds);
    var u := post[l];
    assert rpo[u] == |post| - 1 - l < rpo[post[j]];
    if l < |post| - 1 {
      assert order[|post| - 2 - l] == u;
      assert q.Listed(u);
    } else {
      assert u == m.VirtualRoot();
    }
  }

  ghost predicate ListsPredecessors(m: ModuleGraph, preds: seq<seq<nat>>) {
    forall v: nat, u: nat {:trigger ListsEdge(m, preds, v, u)} | v < |preds| :: ListsEdge(m, preds, v, u)
  }

  ghost predicate ListsEdge(m: ModuleGraph, preds: seq<seq<nat>>, v: nat, u: nat)
    requires v < |preds|
  {
    u in preds[v] <==> m.Static().Reaches(m.VirtualRoot(), u) && m.Static().Edge(u, v)
  }

  lemma PlaceInOrder(m: ModuleGraph, post: seq<nat>, rpo: seq<nat>, order: seq<nat>, i: nat)
    requires IsNumbering(m, post, rpo) && IsReversed(post, order) && i < |order|
    ensures order[i] == post[|post| - 2 - i] < |rpo| && order[i] != m.VirtualRoot() && rpo[order[i]] == i + 1
    ensures m.Static().Reaches(m.VirtualRoot(), order[i])
  {
    var j := |post| - 2 - i;
    assert post[j] in post && post[j] != post[|post| - 1];
  }

  lemma LaterPredecessor(g: Digraph, root: nat, post: seq<nat>, j: nat) returns (l: nat)
    requires IsPostOrder(g, root, post) && j < |post| - 1
    ensures j < l < |post| && g.Edge(post[l], post[j]) && g.Reaches(root, post[l])
  {
    assert HasLaterPredecessor(g, post, j);
    l :| j < l < |post| && g.Edge(post[l], post[j]);
    assert post[l] in post;
  }

  lemma EarlierPredecessor(m: ModuleGraph, post: seq<nat>, rpo: seq<nat>, order: seq<nat>, preds: seq<seq<nat>>, j: nat)
    requires IsNumbering(m, post, rpo) && IsReversed(post, order) && |preds| == |rpo| && j < |post| - 1
    requires ListsPredecessors(m, preds) && post[j] < |preds|
    ensures Problem(m.Static(), Ranks(m.VirtualRoot(), rpo), order, preds).HasEarlierPredecessor(post[j])
  {
    var l := LaterPredecessor(m.Static(), m.VirtualRoot(), post, j);
    assert ListsEdge(m, preds, post[j], post[l]);
    LaterIsEarlier(m, post, rpo, order, preds, j, l);
  }

  lemma MakeNumbered(q: Problem, i: nat)
    requires i < |q.order| && |q.k.rpo| == |q.preds| && q.order[i] < |q.k.rpo| && q.order[i] != q.k.root
    requires q.k.rpo[q.order[i]] == i + 1 && q.g.Reaches(q.k.root, q.order[i]) && q.HasEarlierPredecessor(q.order[i])
    ensures q.Numbered(i)
  {
  }

  lemma OrderIsNumbered(m: ModuleGraph, post: seq<nat>, rpo: seq<nat>, order: seq<nat>, preds: seq<seq<nat>>, i: nat)
    requires IsNumbering(m, post, rpo) && IsReversed(post, order) && |preds| == |rpo| && i < |order|
    requires ListsPredecessors(m, preds)
    ensures Problem(m.Static(), Ranks(m.VirtualRoot(), rpo), order, preds).Numbered(i)
  {
    PlaceInOrder(m, post, rpo, order, i);
    EarlierPredecessor(m, post, rpo, order, preds, |post| - 2 - i);
    MakeNumbered(Problem(m.Static(), Ranks(m.VirtualRoot(), rpo), order, preds), i);
  }

  lemma ProblemIsValid(m: ModuleGraph, post: seq<nat>, rpo: seq<nat>, order: seq<nat>, preds: seq<seq<nat>>)
    requires IsNumbering(m, post, rpo) && IsReversed(post, order)
    requires ReachablePredecessors(m, rpo, |m.imports|, |m.entries|, preds)
    ensures Problem(m.Static(), Ranks(m.VirtualRoot(), rpo), order, preds).Valid()
  {
    var g, root := m.Static(), m.VirtualRoot();
    var q := Problem(g, Ranks(root, rpo), order, preds);
    ViewsAreValid(m);
    DistinctFits(post, |m.imports| + 1);
    RanksAreValid(m, post, rpo);
    forall v: nat, u: nat {:trigger u in preds[v]} | v < |preds|
      ensures u in preds[v] <==> g.Reaches(root, u) && g.Edge(u, v)
    {
      PredecessorsAreEdges(m, post, rpo, preds, v, u);
    }
    forall v: nat, u: nat {:trigger ListsEdge(m, preds, v, u)} | v < |preds| ensures ListsEdge(m, preds, v, u) {
      PredecessorsAreEdges(m, post, rpo, preds, v, u);
    }
    forall v: nat | g.Reaches(root, v) && v != root ensures q.Listed(v) {
      OrderListsAll(m, post, order, v);
    }
    forall i | 0 <= i < |order| ensures q.Numbered(i) {
      OrderIsNumbered(m, post, rpo, order, preds, i);
    }
  }

  lemma PredecessorsAreEdges(m: ModuleGraph, post: seq<nat>, rpo: seq<nat>, preds: seq<seq<nat>>, v: nat, u: nat)
    requires m.Valid() && IsPostOrder(m.Static(), m.VirtualRoot(), post)
    requires |rpo| == |m.imports| + 1
    requires forall i | 0 <= i < |post| :: post[i] < |rpo| && rpo[post[i]] == |post| - 1 - i
    requires forall v | 0 <= v < |rpo| && v !in post :: rpo[v] == USIZE_MAX
    requires |post| <= |m.imports| + 1
    requires ReachablePredecessors(m, rpo, |m.imports|, |m.entries|, preds) && v < |preds|
    ensures u in preds[v] <==> m.Static().Reaches(m.VirtualRoot(), u) && m.Static().Edge(u, v)
  {
    var g, root := m.Static(), m.VirtualRoot();
    assert m.entries[..|m.entries|] == m.entries;
    ReachesSelf(g, root);
    assert |g.succs| == |m.imports| + 1 && g.succs[root] == m.entries;
    if u < |m.imports| {
      assert g.succs[u] == Targets(m.imports[u], false);
      if u in post {
        var i :| 0 <= i < |post| && post[i] == u;
        assert rpo[u] != USIZE_MAX && g.Reaches(root, u);
      } else {
        assert rpo[u] == USIZE_MAX && !g.Reaches(root, u);
      }
      assert u in preds[v] <==> rpo[u] != USIZE_MAX && v in Targets(m.imports[u], false);
    } else if u == root {
      assert u in preds[v] <==> v in m.entries;
    } else {
      assert u !in preds[v];
    }
  }

  // ---- The result -------------------------------------------------------------------------

  datatype Node = Node(
    bytes: nat, idom: Option<nat>, staticReachable: bool, dynamicOnly: bool,
    retainedBytes: nat, retainedCount: nat, imports: seq<Import>)

  datatype Analysis = Analysis(
    nodes: seq<Node>, staticModuleCount: nat, staticBytes: nat, dynamicOnlyCount: nat)

  /** Everything the analysis promises about one module, in terms of paths alone. */
  ghost predicate NodeIsCorrect(m: ModuleGraph, v: nat, node: Node)
    requires m.Valid() && v < |m.imports|
  {
    && node.bytes == m.bytes[v] && node.imports == m.imports[v]
    && (node.staticReachable <==> m.StaticallyReachable(v))
    && (node.dynamicOnly <==> m.DynamicOnly(v))
    && node.retainedBytes == Weight(m.bytes, m.LostWithout(v))
    && node.retainedCount == |m.LostWithout(v)|
    && match node.idom
       case Some(d) => m.StaticallyReachable(v) && d < |m.imports| && m.ImmediatelyDominates(d, v)
       case None => m.StaticallyReachable(v) ==> m.ImmediatelyDominates(m.VirtualRoot(), v)
  }

  ghost function HangingOffRoot(nodes: seq<Node>): set<nat> {
    set v | 0 <= v < |nodes| && nodes[v].staticReachable && nodes[v].idom == None :: v
  }

  function RetainedOf(nodes: seq<Node>): (r: seq<nat>)
    ensures |r| == |nodes| && forall v | 0 <= v < |r| :: r[v] == nodes[v].retainedBytes
  {
    seq(|nodes|, v requires 0 <= v < |nodes| => nodes[v].retainedBytes)
  }

  ghost predicate AnalysisIsCorrect(m: ModuleGraph, a: Analysis)
    requires m.Valid()
  {
    && |a.nodes| == |m.imports|
    && (forall v | 0 <= v < |a.nodes| :: NodeIsCorrect(m, v, a.nodes[v]))
    && a.staticModuleCount == |m.StaticModules()|
    && a.staticBytes == Weight(m.bytes, m.StaticModules())
    && a.dynamicOnlyCount == |DynamicBelow(m, |m.imports|)|
    // The subtrees that hang off the virtual root partition the initial load.
    && Weight(RetainedOf(a.nodes), HangingOffRoot(a.nodes)) == a.staticBytes
  }

  /** The initial weights of the fold: a reachable module's bytes (or one), zero for all else. */
  ghost predicate OwnWeights(m: ModuleGraph, rpo: seq<nat>, ownBytes: seq<nat>, ownCount: seq<nat>)
    requires |m.bytes| == |m.imports|
  {
    && |ownBytes| == |ownCount| == |rpo| == |m.imports| + 1
    && forall v | 0 <= v < |rpo| ::
         && ownBytes[v] == (if v < |m.imports| && rpo[v] != USIZE_MAX then m.bytes[v] else 0)
         && ownCount[v] == if v < |m.imports| && rpo[v] != USIZE_MAX then 1 else 0
  }

  /** The dominator tree of the initial load, and the numbers it was computed from. */
  ghost predicate TreeOf(m: ModuleGraph, q: Problem, idom: seq<nat>) {
    && m.Valid()
    && q.g == m.Static() && q.k.root == m.VirtualRoot()
    && |idom| == |q.k.rpo| == |m.imports| + 1
    && IsDominatorTree(q, idom)
    && (forall v | 0 <= v < |idom| :: idom[v] != USIZE_MAX <==> q.k.rpo[v] != USIZE_MAX)
  }

  lemma UnderIsLost(m: ModuleGraph, q: Problem, idom: seq<nat>, v: nat)
    requires TreeOf(m, q, idom) && v < |m.imports|
    ensures Under(q.k, idom, v) == m.LostWithout(v)
  {
    forall u: nat ensures u in Under(q.k, idom, v) <==> u in m.LostWithout(v) {
      DominatesIffLostWithout(q.g, q.k.root, v, u);
      if u == q.k.root && Set(idom, u) {
        assert Chain(q.k, idom, u) == {u};
      }
    }
  }

  lemma UnreachableLosesNothing(m: ModuleGraph, v: nat)
    requires m.Valid() && v < |m.imports| && !m.StaticallyReachable(v)
    ensures m.LostWithout(v) == {}
  {
    var g, root := m.Static(), m.VirtualRoot();
    forall u: nat | m.StaticallyReachable(u) ensures g.ReachesWithout(root, u, v) {
      var p :| g.PathBetween(root, u, p);
      if v in p {
        var i :| 0 <= i < |p| && p[i] == v;
        PathPrefix(g, p, i);
      }
    }
  }

  lemma RetainedIsLost(
      m: ModuleGraph, q: Problem, idom: seq<nat>, ownBytes: seq<nat>, ownCount: seq<nat>, v: nat)
    requires TreeOf(m, q, idom) && OwnWeights(m, q.k.rpo, ownBytes, ownCount) && v < |m.imports|
    ensures Weight(ownBytes, Under(q.k, idom, v)) == Weight(m.bytes, m.LostWithout(v))
    ensures Weight(ownCount, Under(q.k, idom, v)) == |m.LostWithout(v)|
  {
    UnderIsLost(m, q, idom, v);
    forall u | u in m.LostWithout(v) ensures Set(idom, u) {
      assert q.g.Reaches(q.k.root, u);
    }
    WeightSame(ownBytes, m.bytes, m.LostWithout(v));
    WeightOfOnes(ownCount, m.LostWithout(v));
  }

  lemma RootReachesThroughEntries(m: ModuleGraph, g: Digraph, v: nat)
    requires g.Valid() && |g.succs| == |m.imports| + 1 && g.succs[m.VirtualRoot()] == m.entries
    requires v < |m.imports|
    ensures ReachesFromAny(g, m.entries, v) <==> g.Reaches(m.VirtualRoot(), v)
  {
    var root := m.VirtualRoot();
    if ReachesFromAny(g, m.entries, v) {
      var e :| e in m.entries && g.Reaches(e, v);
      var p :| g.PathBetween(e, v, p);
      var q := [root] + p;
      forall i | 0 <= i < |q| - 1 ensures g.Edge(q[i], q[i + 1]) {
        if i > 0 {
          assert g.Edge(p[i - 1], p[i - 1 + 1]);
        }
      }
      assert g.PathBetween(root, v, q);
    }
    if g.Reaches(root, v) {
      var p :| g.PathBetween(root, v, p);
      assert g.Edge(p[0], p[1]);
      PathSuffix(g, p, 1);
      assert g.Reaches(p[1], v);
    }
  }

  lemma TopsCover(m: ModuleGraph, q: Problem, idom: seq<nat>, tops: set<nat>)
    requires TreeOf(m, q, idom)
    requires forall c: nat :: c in tops <==> IsChild(q.k, idom, q.k.root, c)
    ensures UnderAny(q.k, idom, tops) == m.StaticModules()
  {
    var k, root := q.k, q.k.root;
    forall u | u in m.StaticModules() ensures u in UnderAny(k, idom, tops) {
      assert Set(idom, u);
      RootInChain(k, idom, u);
      var c := ChildTowards(k, idom, root, u);
      assert c in tops && u in Under(k, idom, c);
    }
    forall u | u in UnderAny(k, idom, tops) ensures u in m.StaticModules() {
      var c: nat :| c in tops && u in Under(k, idom, c);
      assert Set(idom, u) && c in Chain(k, idom, u) && IsChild(k, idom, root, c);
      assert m.StaticallyReachable(u);
    }
  }

  /** What the last loop records about module `v`. */
  ghost predicate Recorded(m: ModuleGraph, q: Problem, idom: seq<nat>, v: nat, node: Node)
    requires TreeOf(m, q, idom) && v < |m.imports|
  {
    && NodeIsCorrect(m, v, node)
    && (node.staticReachable && node.idom == None <==> IsChild(q.k, idom, q.k.root, v))
  }

  /** The top-level subtrees partition the statically reachable modules. */
  lemma TopsPartition(m: ModuleGraph, q: Problem, idom: seq<nat>, nodes: seq<Node>)
    requires TreeOf(m, q, idom) && |nodes| == |m.imports|
    requires forall v | 0 <= v < |nodes| :: Recorded(m, q, idom, v, nodes[v])
    ensures Weight(RetainedOf(nodes), HangingOffRoot(nodes)) == Weight(m.bytes, m.StaticModules())
  {
    var k, root := q.k, q.k.root;
    var tops := HangingOffRoot(nodes);
    forall c: nat ensures c in tops <==> IsChild(k, idom, root, c) {
      if c < |nodes| {
        assert Recorded(m, q, idom, c, nodes[c]);
      }
    }
    TopsCover(m, q, idom, tops);
    var acc := RetainedOf(nodes) + [0];
    forall c: nat | c in tops ensures At(acc, c) == Weight(m.bytes, Under(k, idom, c)) {
      assert Recorded(m, q, idom, c, nodes[c]);
      UnderIsLost(m, q, idom, c);
    }
    SiblingsAddUp(k, idom, root, tops, m.bytes, acc);
    WeightSame(acc, RetainedOf(nodes), tops);
  }

  /** What a node reports about its module, from the arrays the earlier phases left behind. */
  function MakeNode(m: ModuleGraph, idom: nat, reachable: bool, reachableAll: bool, retainedBytes: nat,
      retainedCount: nat, v: nat): Node
    requires v < |m.imports| == |m.bytes|
  {
    Node(m.bytes[v],
         if reachable && idom != USIZE_MAX && idom != |m.imports| && idom < |m.imports| then Some(idom) else None,
         reachable,
         reachableAll && !reachable,
         if reachable then retainedBytes else 0,
         if reachable then retainedCount else 0,
         m.imports[v])
  }

  lemma NodeFromTree(
      m: ModuleGraph, q: Problem, idom: seq<nat>, ownBytes: seq<nat>, ownCount: seq<nat>,
      reachableAll: bool, retainedBytes: nat, retainedCount: nat, v: nat)
    requires TreeOf(m, q, idom) && OwnWeights(m, q.k.rpo, ownBytes, ownCount) && v < |m.imports|
    requires Set(idom, v) ==> retainedBytes == Weight(ownBytes, Under(q.k, idom, v))
    requires Set(idom, v) ==> retainedCount == Weight(ownCount, Under(q.k, idom, v))
    requires reachableAll <==> ReachesFromAny(m.Full(), m.entries, v)
    ensures Recorded(m, q, idom, v,
                     MakeNode(m, idom[v], q.k.rpo[v] != USIZE_MAX, reachableAll, retainedBytes, retainedCount, v))
  {
    ViewsAreValid(m);
    RootReachesThroughEntries(m, m.Full(), v);
    assert Set(idom, v) <==> m.StaticallyReachable(v);
    RetainedIsLost(m, q, idom, ownBytes, ownCount, v);
    if m.StaticallyReachable(v) {
      assert Hangs(q.k, idom, v);
      ParentIsImmediateDominator(q, idom, v);
      assert m.ImmediatelyDominates(idom[v], v);
    } else {
      UnreachableLosesNothing(m, v);
    }
  }

  lemma TreeFromProblem(m: ModuleGraph, q: Problem, post: seq<nat>, idom: seq<nat>)
    requires m.Valid() && q.g == m.Static() && q.k.root == m.VirtualRoot()
    requires q.Valid() && IsDominatorTree(q, idom) && IsPostOrder(q.g, q.k.root, post)
    requires forall i | 0 <= i < |post| :: post[i] < |q.k.rpo| && q.k.rpo[post[i]] == |post| - 1 - i
    requires forall v | 0 <= v < |q.k.rpo| && v !in post :: q.k.rpo[v] == USIZE_MAX
    requires forall v: nat | v in post :: v <= |m.imports|
    ensures TreeOf(m, q, idom) && NumberedInReverse(q.k, idom, post)
  {
    DistinctFits(post, |idom|);
    forall v: nat | v < |idom| ensures idom[v] != USIZE_MAX <==> q.k.rpo[v] != USIZE_MAX {
      if v in post {
        var i :| 0 <= i < |post| && post[i] == v;
      }
      assert Set(idom, v) <==> q.g.Reaches(q.k.root, v);
    }
  }

  ghost function StaticBelow(m: ModuleGraph, n: nat): set<nat> {
    set u | 0 <= u < n && m.StaticallyReachable(u) :: u
  }

  ghost function DynamicBelow(m: ModuleGraph, n: nat): set<nat> {
    set u | 0 <= u < n && m.DynamicOnly(u) :: u
  }

  lemma EntriesAreModules(m: ModuleGraph)
    requires m.Valid()
    ensures m.imports == [] ==> m.entries == []
  {
    if m.entries != [] {
      assert m.entries[0] in m.entries;
    }
  }

  /** The whole analysis: `None` when there is no entry (and so nothing to analyze). */
  method Analyze(m: ModuleGraph) returns (result: Option<Analysis>)
    requires m.Valid()
    ensures result.None? <==> m.entries == []
    ensures result.Some? ==> AnalysisIsCorrect(m, result.value)
  {
    EntriesAreModules(m);
    if m.imports == [] || m.entries == [] {
      return None;
    }
    ViewsAreValid(m);
    var n := |m.imports|;
    var g := m.Static();
    var post := PostOrder(g, n);
    forall v: nat | v in post ensures v <= n {
      var p :| g.PathBetween(n, v, p);
      PathStays(g, p, |p| - 1);
    }
    var rpo := RpoNumbers(post, n + 1);
    var preds := StaticPredecessors(m, rpo);
    var order := ReversedWithout(post, n);
    var q := Problem(g, Ranks(n, rpo), order, preds);
    ProblemIsValid(m, post, rpo, order, preds);
    var idom := ImmediateDominators(q);
    TreeFromProblem(m, q, post, idom);
    var ownBytes := seq(n + 1, v requires 0 <= v < n + 1 == |rpo| =>
                          if v < n && rpo[v] != USIZE_MAX then m.bytes[v] else 0);
    var ownCount := seq(n + 1, v requires 0 <= v < n + 1 == |rpo| =>
                          if v < n && rpo[v] != USIZE_MAX then 1 else 0);
    var retainedBytes, retainedCount := FoldIntoDominators(q.k, idom, post, ownBytes, ownCount);
    var reachableAll := MarkReachable(m.Full(), m.entries);
    var analysis := Assemble(
      m, q, idom, ownBytes, ownCount, retainedBytes[..], retainedCount[..], reachableAll);
    result := Some(analysis);
  }

  /** The totals over the first `v` modules. */
  ghost predicate Totals(m: ModuleGraph, v: nat, moduleCount: nat, bytes: nat, dynamicCount: nat) {
    && moduleCount == |StaticBelow(m, v)|
    && bytes == Weight(m.bytes, StaticBelow(m, v))
    && dynamicCount == |DynamicBelow(m, v)|
  }

  lemma TotalsStep(m: ModuleGraph, v: nat, moduleCount: nat, bytes: nat, dynamicCount: nat, node: Node)
    requires m.Valid() && v < |m.imports| && NodeIsCorrect(m, v, node)
    requires Totals(m, v, moduleCount, bytes, dynamicCount)
    ensures Totals(m, v + 1,
                   moduleCount + if node.staticReachable then 1 else 0,
                   bytes + if node.staticReachable then m.bytes[v] else 0,
                   dynamicCount + if node.dynamicOnly then 1 else 0)
  {
    StaticBelowStep(m, v);
    DynamicBelowStep(m, v);
    WeightAdd(m.bytes, StaticBelow(m, v), v);
  }

  lemma StaticBelowStep(m: ModuleGraph, v: nat)
    requires v < |m.imports|
    ensures v !in StaticBelow(m, v)
    ensures StaticBelow(m, v + 1) == if m.StaticallyReachable(v) then StaticBelow(m, v) + {v} else StaticBelow(m, v)
  {
  }

  lemma DynamicBelowStep(m: ModuleGraph, v: nat)
    requires v < |m.imports|
    ensures v !in DynamicBelow(m, v)
    ensures DynamicBelow(m, v + 1) == if m.DynamicOnly(v) then DynamicBelow(m, v) + {v} else DynamicBelow(m, v)
  {
  }

  /** The arrays the earlier phases left behind. */
  ghost predicate Prepared(
      m: ModuleGraph, q: Problem, idom: seq<nat>, ownBytes: seq<nat>, ownCount: seq<nat>,
      retainedBytes: seq<nat>, retainedCount: seq<nat>, reachableAll: seq<bool>)
  {
    && TreeOf(m, q, idom) && OwnWeights(m, q.k.rpo, ownBytes, ownCount)
    && |retainedBytes| == |retainedCount| == |reachableAll| == |idom|
    && (forall v: nat {:trigger Under(q.k, idom, v)} | Set(idom, v) ::
          && retainedBytes[v] == Weight(ownBytes, Under(q.k, idom, v))
          && retainedCount[v] == Weight(ownCount, Under(q.k, idom, v)))
    && (forall v | 0 <= v < |reachableAll| :: reachableAll[v] <==> ReachesFromAny(m.Full(), m.entries, v))
  }

  /** The nodes of the first modules are right, and so are the totals over them. */
  ghost predicate Assembling(m: ModuleGraph, q: Problem, idom: seq<nat>, nodes: seq<Node>, staticModules: nat,
      staticBytes: nat, dynamicOnly: nat)
  {
    && TreeOf(m, q, idom) && |nodes| <= |m.imports|
    && (forall u {:trigger nodes[u]} | 0 <= u < |nodes| :: Recorded(m, q, idom, u, nodes[u]))
    && Totals(m, |nodes|, staticModules, staticBytes, dynamicOnly)
  }

  lemma AssembleStep(m: ModuleGraph, q: Problem, idom: seq<nat>, nodes: seq<Node>, staticModules: nat, staticBytes: nat,
      dynamicOnly: nat, node: Node)
    requires Assembling(m, q, idom, nodes, staticModules, staticBytes, dynamicOnly) && |nodes| < |m.imports|
    requires Recorded(m, q, idom, |nodes|, node)
    ensures Assembling(m, q, idom, nodes + [node],
                       if node.staticReachable then staticModules + 1 else staticModules,
                       if node.staticReachable then staticBytes + m.bytes[|nodes|] else staticBytes,
                       if node.dynamicOnly then dynamicOnly + 1 else dynamicOnly)
  {
    TotalsStep(m, |nodes|, staticModules, staticBytes, dynamicOnly, node);
  }

  /** The last loop: one node per module, and the totals. */
  method Assemble(
      m: ModuleGraph, q: Problem, idom: seq<nat>, ghost ownBytes: seq<nat>, ghost ownCount: seq<nat>,
      retainedBytes: seq<nat>, retainedCount: seq<nat>, reachableAll: seq<bool>)
    returns (result: Analysis)
    requires Prepared(m, q, idom, ownBytes, ownCount, retainedBytes, retainedCount, reachableAll)
    ensures AnalysisIsCorrect(m, result)
  {
    var nodes, staticModuleCount, staticBytes, dynamicOnlyCount := [], 0, 0, 0;
    assert StaticBelow(m, 0) == {} && DynamicBelow(m, 0) == {};
    for v := 0 to |m.imports|
      invariant |nodes| == v && Assembling(m, q, idom, nodes, staticModuleCount, staticBytes, dynamicOnlyCount)
    {
      var node := MakeNode(m, idom[v], q.k.rpo[v] != USIZE_MAX, reachableAll[v], retainedBytes[v], retainedCount[v], v);
      NodeFromTree(m, q, idom, ownBytes, ownCount, reachableAll[v], retainedBytes[v], retainedCount[v], v);
      AssembleStep(m, q, idom, nodes, staticModuleCount, staticBytes, dynamicOnlyCount, node);
      if node.staticReachable {
        staticModuleCount := staticModuleCount + 1;
        staticBytes := staticBytes + m.bytes[v];
      }
      if node.dynamicOnly {
        dynamicOnlyCount := dynamicOnlyCount + 1;
      }
      nodes := nodes + [node];
    }
    TopsPartition(m, q, idom, nodes);
    result := Analysis(nodes, staticModuleCount, staticBytes, dynamicOnlyCount);
    AnalysisFromNodes(m, q, idom, result);
  }

  lemma AnalysisFromNodes(m: ModuleGraph, q: Problem, idom: seq<nat>, a: Analysis)
    requires TreeOf(m, q, idom) && |a.nodes| == |m.imports|
    requires forall v | 0 <= v < |a.nodes| :: Recorded(m, q, idom, v, a.nodes[v])
    requires Totals(m, |m.imports|, a.staticModuleCount, a.staticBytes, a.dynamicOnlyCount)
    requires Weight(RetainedOf(a.nodes), HangingOffRoot(a.nodes)) == Weight(m.bytes, m.StaticModules())
    ensures AnalysisIsCorrect(m, a)
  {
    assert StaticBelow(m, |m.imports|) == m.StaticModules();
    forall v | 0 <= v < |a.nodes| ensures NodeIsCorrect(m, v, a.nodes[v]) {
      assert Recorded(m, q, idom, v, a.nodes[v]);
    }
  }
}
