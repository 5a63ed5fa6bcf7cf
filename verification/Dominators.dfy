/** The iterative Cooper-Harvey-Kennedy dominator loop over a shared `idom` array. */
module Dominators {
  import opened Digraphs
  import opened DominatorForest

  /** Everything the dominator loop is handed: the graph, the reverse post-order numbers, the
      vertices other than the root in that order, and the predecessor lists. */
  datatype Problem = Problem(g: Digraph, k: Ranks, order: seq<nat>, preds: seq<seq<nat>>)
  {
    ghost predicate Valid() {
      && g.Valid()
      && k.Valid()
      && |k.rpo| == |preds| == |g.succs|
      && |order| < |k.rpo|
      && (forall i | 0 <= i < |order| :: Numbered(i))
      && (forall v {:trigger Listed(v)} | g.Reaches(k.root, v) && v != k.root :: Listed(v))
      && (forall v, u | 0 <= v < |preds| :: u in preds[v] <==> g.Reaches(k.root, u) && g.Edge(u, v))
    }

    ghost predicate Numbered(i: nat)
      requires i < |order| && |k.rpo| == |preds|
    {
      && order[i] < |k.rpo| && order[i] != k.root
      && k.rpo[order[i]] == i + 1
      && g.Reaches(k.root, order[i])
      && HasEarlierPredecessor(order[i])
    }

    ghost predicate Listed(v: nat) {
      v < |k.rpo| && 0 < k.rpo[v] <= |order| && order[k.rpo[v] - 1] == v
    }

    ghost predicate HasEarlierPredecessor(v: nat)
      requires v < |k.rpo| == |preds|
    {
      exists u | u in preds[v] :: u < |k.rpo| && k.rpo[u] < k.rpo[v] && (u == k.root || Listed(u))
    }

    /** A predecessor that the search numbered before `order[i]`. */
    ghost function Parent(i: nat): (u: nat)
      requires Valid() && i < |order|
      ensures u in preds[order[i]] && u < |k.rpo| && k.rpo[u] < i + 1 && (u == k.root || Listed(u))
    {
      assert Numbered(i);
      var u :| u in preds[order[i]] && u < |k.rpo| && k.rpo[u] < k.rpo[order[i]] && (u == k.root || Listed(u));
      u
    }
  }

  // ---- What every assignment keeps --------------------------------------------------------

  /** Every strict dominator of `v` also dominates the current `idom[v]`. */
  ghost predicate Sound(q: Problem, idom: seq<nat>, v: nat)
    requires v < |idom|
  {
    forall d | q.g.Dominates(q.k.root, d, v) && d != v :: q.g.Dominates(q.k.root, d, idom[v])
  }

  /** `z` is in the chain of every predecessor of `v` that has one. */
  ghost predicate SharedByPredecessors(q: Problem, idom: seq<nat>, v: nat, z: nat)
    requires Forest(q.k, idom) && v < |q.preds|
  {
    forall p | p in q.preds[v] && Set(idom, p) :: z in Chain(q.k, idom, p)
  }

  /** The recorded chain of `v` holds at least what its predecessors share. */
  ghost predicate Covers(q: Problem, idom: seq<nat>, v: nat)
    requires Forest(q.k, idom) && v < |q.preds| && Set(idom, v) && Set(idom, idom[v])
  {
    forall z | SharedByPredecessors(q, idom, v, z) :: z in Chain(q.k, idom, idom[v])
  }

  /** The recorded chain of `order[i]` holds no more than what its predecessors share. */
  ghost predicate Settled(q: Problem, idom: seq<nat>, v: nat)
    requires Forest(q.k, idom) && v < |q.preds| && Set(idom, v)
  {
    SharedByPredecessors(q, idom, v, idom[v])
  }

  ghost predicate KeptAt(q: Problem, idom: seq<nat>, v: nat)
    requires Forest(q.k, idom) && v < |q.preds| && Set(idom, v)
  {
    q.Listed(v) && Set(idom, idom[v]) && Sound(q, idom, v) && Covers(q, idom, v)
  }

  /** An ancestor of `order[j]` that this pass has not visited yet is an ancestor of its parent. */
  ghost predicate Fresh(q: Problem, idom: seq<nat>, i: nat, j: nat)
    requires q.Valid() && Forest(q.k, idom) && j < |q.order| && Set(idom, q.order[j])
  {
    && Set(idom, idom[q.order[j]])
    && forall a | a in Chain(q.k, idom, idom[q.order[j]]) && a < |q.k.rpo| && q.k.rpo[a] > i ::
         Set(idom, q.Parent(j)) && a in Chain(q.k, idom, q.Parent(j))
  }

  /** The pass has just set `order[j]` to an ancestor of its parent. */
  ghost predicate Aligned(q: Problem, idom: seq<nat>, j: nat)
    requires q.Valid() && Forest(q.k, idom) && j < |q.order|
  {
    && Set(idom, q.order[j]) && Set(idom, q.Parent(j))
    && idom[q.order[j]] in Chain(q.k, idom, q.Parent(j))
  }

  /** The state after the first `i` vertices of a pass. */
  ghost predicate Passing(q: Problem, idom: seq<nat>, i: nat) {
    && q.Valid()
    && Forest(q.k, idom)
    && i <= |q.order|
    && (forall v {:trigger KeptAt(q, idom, v)} | Set(idom, v) && v != q.k.root :: KeptAt(q, idom, v))
    && (forall j {:trigger Fresh(q, idom, i, j)} | 0 <= j < |q.order| && Set(idom, q.order[j]) :: Fresh(q, idom, i, j))
    && (forall j {:trigger Aligned(q, idom, j)} | 0 <= j < i :: Aligned(q, idom, j))
  }

  // ---- One vertex of a pass ---------------------------------------------------------------

  /** `y` is the vertex whose chain is exactly what the predecessors of `v` share. */
  ghost predicate IsMeet(q: Problem, idom: seq<nat>, v: nat, y: nat)
    requires Forest(q.k, idom) && v < |q.preds|
  {
    Set(idom, y) && forall z :: z in Chain(q.k, idom, y) <==> SharedByPredecessors(q, idom, v, z)
  }

  lemma ParentIsSet(q: Problem, idom: seq<nat>, i: nat)
    requires Passing(q, idom, i) && i < |q.order|
    ensures Set(idom, q.Parent(i))
  {
    var u := q.Parent(i);
    if u != q.k.root {
      assert q.Listed(u);
      assert Aligned(q, idom, q.k.rpo[u] - 1);
    }
  }

  lemma InOwnChain(k: Ranks, idom: seq<nat>, v: nat)
    requires Forest(k, idom) && Set(idom, v)
    ensures v in Chain(k, idom, v)
  {
  }

  lemma MeetIsEarlier(q: Problem, idom: seq<nat>, i: nat, y: nat)
    requires Passing(q, idom, i) && i < |q.order| && q.Numbered(i) && IsMeet(q, idom, q.order[i], y)
    ensures Set(idom, q.Parent(i)) && y in Chain(q.k, idom, q.Parent(i))
    ensures q.k.rpo[y] < q.k.rpo[q.order[i]] != USIZE_MAX
    ensures Forest(q.k, idom[q.order[i] := y])
  {
    ParentIsSet(q, idom, i);
    InOwnChain(q.k, idom, y);
    assert SharedByPredecessors(q, idom, q.order[i], y);
    ChainRank(q.k, idom, q.Parent(i), y);
    ForestAfter(q.k, idom, q.order[i], y);
  }

  lemma MeetIsAncestor(q: Problem, idom: seq<nat>, i: nat, y: nat)
    requires Passing(q, idom, i) && i < |q.order| && q.Numbered(i) && IsMeet(q, idom, q.order[i], y)
    requires Set(idom, q.order[i])
    ensures Set(idom, idom[q.order[i]]) && y in Chain(q.k, idom, idom[q.order[i]])
  {
    var v := q.order[i];
    assert KeptAt(q, idom, v);
    InOwnChain(q.k, idom, y);
    assert SharedByPredecessors(q, idom, v, y);
  }

  /** Assigning the meet never lengthens a chain, and only chains through `order[i]` lose members. */
  lemma Shrinks(q: Problem, idom: seq<nat>, i: nat, y: nat, u: nat)
    requires Passing(q, idom, i) && i < |q.order| && q.Numbered(i) && IsMeet(q, idom, q.order[i], y)
    requires Set(idom, u)
    ensures var v := q.order[i]; var after := idom[v := y];
      && Forest(q.k, after) && Set(after, u)
      && Chain(q.k, after, u) <= Chain(q.k, idom, u)
      && (v !in Chain(q.k, idom, u) ==> Chain(q.k, after, u) == Chain(q.k, idom, u))
      && (v in Chain(q.k, idom, u) ==>
            && v in Chain(q.k, after, u)
            && forall z | z in Chain(q.k, idom, u) && z !in Chain(q.k, after, u) ::
                 Set(idom, z) && q.k.rpo[z] < q.k.rpo[v] && z !in Chain(q.k, idom, y))
  {
    var v := q.order[i];
    var after := idom[v := y];
    MeetIsEarlier(q, idom, i, y);
    if Set(idom, v) {
      MeetIsAncestor(q, idom, i, y);
      MoveUp(q.k, idom, v, y, u);
      assert Hangs(q.k, idom, v);
      forall z | z in Chain(q.k, idom, idom[v]) ensures Set(idom, z) && q.k.rpo[z] < q.k.rpo[v] {
        ChainRank(q.k, idom, idom[v], z);
      }
    } else {
      HangNew(q.k, idom, v, y, u);
      if v in Chain(q.k, idom, u) {
        ChainRank(q.k, idom, u, v);
      }
    }
  }

  lemma ChainOfAssigned(q: Problem, idom: seq<nat>, i: nat, y: nat)
    requires Passing(q, idom, i) && i < |q.order| && q.Numbered(i) && IsMeet(q, idom, q.order[i], y)
    ensures var after := idom[q.order[i] := y];
      && Forest(q.k, after) && Set(after, q.order[i]) && Set(after, y)
      && Chain(q.k, after, y) == Chain(q.k, idom, y)
      && Chain(q.k, after, q.order[i]) == {q.order[i]} + Chain(q.k, idom, y)
  {
    MeetIsEarlier(q, idom, i, y);
    ChainBelowUnchanged(q.k, idom, q.order[i], y, y);
  }

  // ---- The strict dominators are always in the chain --------------------------------------

  lemma RootDominatedByItself(q: Problem, d: nat)
    requires q.Valid() && q.g.Dominates(q.k.root, d, q.k.root)
    ensures d == q.k.root
  {
    assert q.g.PathBetween(q.k.root, q.k.root, [q.k.root]);
    assert d in [q.k.root];
  }

  ghost predicate AllSound(q: Problem, idom: seq<nat>) {
    forall v {:trigger Sound(q, idom, v)} | Set(idom, v) && v != q.k.root :: Sound(q, idom, v)
  }

  lemma {:induction false} DominatorsInChain(q: Problem, idom: seq<nat>, v: nat, d: nat)
    requires q.Valid() && Forest(q.k, idom) && AllSound(q, idom)
    requires Set(idom, v) && q.g.Dominates(q.k.root, d, v)
    ensures d in Chain(q.k, idom, v)
    decreases q.k.rpo[v]
  {
    if v == q.k.root {
      RootDominatedByItself(q, d);
    } else if d != v {
      assert Hangs(q.k, idom, v);
      assert Sound(q, idom, v);
      DominatorsInChain(q, idom, idom[v], d);
    }
  }

  /** A dominator of `v` dominates every member of `v`'s chain that is not numbered before it. */
  lemma {:induction false} DominatesDownToRank(q: Problem, idom: seq<nat>, v: nat, y: nat, d: nat)
    requires q.Valid() && Forest(q.k, idom) && AllSound(q, idom)
    requires Set(idom, v) && y in Chain(q.k, idom, v) && q.g.Dominates(q.k.root, d, v)
    requires Set(idom, d) && Set(idom, y) && q.k.rpo[d] <= q.k.rpo[y]
    ensures q.g.Dominates(q.k.root, d, y)
    decreases q.k.rpo[v]
  {
    if y != v {
      assert Hangs(q.k, idom, v);
      ChainRank(q.k, idom, idom[v], y);
      assert Sound(q, idom, v);
      DominatesDownToRank(q, idom, idom[v], y, d);
    }
  }

  lemma MeetIsSound(q: Problem, idom: seq<nat>, i: nat, y: nat)
    requires Passing(q, idom, i) && i < |q.order| && q.Numbered(i) && IsMeet(q, idom, q.order[i], y)
    ensures Sound(q, idom[q.order[i] := y], q.order[i])
  {
    var v := q.order[i];
    MeetIsEarlier(q, idom, i, y);
    AllSoundNow(q, idom, i);
    forall d | q.g.Dominates(q.k.root, d, v) && d != v ensures q.g.Dominates(q.k.root, d, y) {
      forall p | p in q.preds[v] && Set(idom, p) ensures d in Chain(q.k, idom, p) {
        StrictDominatorOfPredecessor(q.g, q.k.root, d, p, v);
        DominatorsInChain(q, idom, p, d);
      }
      assert SharedByPredecessors(q, idom, v, d);
      ChainRank(q.k, idom, y, d);
      StrictDominatorOfPredecessor(q.g, q.k.root, d, q.Parent(i), v);
      DominatesDownToRank(q, idom, q.Parent(i), y, d);
    }
  }

  lemma AllSoundNow(q: Problem, idom: seq<nat>, i: nat)
    requires Passing(q, idom, i)
    ensures AllSound(q, idom)
  {
    forall v | Set(idom, v) && v != q.k.root ensures Sound(q, idom, v) {
      assert KeptAt(q, idom, v);
    }
  }

  // ---- Assigning the meet keeps the pass going --------------------------------------------

  lemma CoversAssigned(q: Problem, idom: seq<nat>, i: nat, y: nat)
    requires Passing(q, idom, i) && i < |q.order| && q.Numbered(i) && IsMeet(q, idom, q.order[i], y)
    ensures Forest(q.k, idom[q.order[i] := y]) && KeptAt(q, idom[q.order[i] := y], q.order[i])
  {
    var v := q.order[i];
    var after := idom[v := y];
    ChainOfAssigned(q, idom, i, y);
    MeetIsSound(q, idom, i, y);
    forall z | SharedByPredecessors(q, after, v, z) ensures z in Chain(q.k, after, y) {
      forall p | p in q.preds[v] && Set(idom, p) ensures z in Chain(q.k, idom, p) {
        Shrinks(q, idom, i, y, p);
      }
      assert SharedByPredecessors(q, idom, v, z);
    }
  }

  lemma CoversOther(q: Problem, idom: seq<nat>, i: nat, y: nat, w: nat)
    requires Passing(q, idom, i) && i < |q.order| && q.Numbered(i) && IsMeet(q, idom, q.order[i], y)
    requires Set(idom, w) && w != q.k.root && w != q.order[i]
    ensures Forest(q.k, idom[q.order[i] := y]) && KeptAt(q, idom[q.order[i] := y], w)
  {
    var v := q.order[i];
    var after := idom[v := y];
    assert KeptAt(q, idom, w);
    Shrinks(q, idom, i, y, w);
    Shrinks(q, idom, i, y, idom[w]);
    ChainOfAssigned(q, idom, i, y);
    forall z | SharedByPredecessors(q, after, w, z) ensures z in Chain(q.k, after, idom[w]) {
      forall p | p in q.preds[w] && Set(idom, p) ensures z in Chain(q.k, idom, p) {
        Shrinks(q, idom, i, y, p);
      }
      assert SharedByPredecessors(q, idom, w, z);
      if z !in Chain(q.k, after, idom[w]) {
        StaleIsSafe(q, idom, i, y, w, z);
      }
    }
    assert Sound(q, after, w);
  }

  /** The heart of termination: no pointer is stale below a vertex that is just moving up, because
      the parent of its source was below that vertex too. */
  lemma StaleIsSafe(q: Problem, idom: seq<nat>, i: nat, y: nat, w: nat, z: nat)
    requires Passing(q, idom, i) && i < |q.order| && q.Numbered(i) && IsMeet(q, idom, q.order[i], y)
    requires Set(idom, w) && w != q.k.root && Set(idom, idom[w])
    requires q.order[i] in Chain(q.k, idom, idom[w])
    requires Set(idom, z) && q.k.rpo[z] < q.k.rpo[q.order[i]] && z !in Chain(q.k, idom, y)
    requires Forest(q.k, idom[q.order[i] := y])
    ensures !SharedByPredecessors(q, idom[q.order[i] := y], w, z)
  {
    var v := q.order[i];
    var after := idom[v := y];
    assert Hangs(q.k, idom, w);
    SetIsListed(q, idom, i, w);
    var j := q.k.rpo[w] - 1;
    assert Fresh(q, idom, i, j);
    var u := q.Parent(j);
    assert v in Chain(q.k, idom, u);
    Shrinks(q, idom, i, y, u);
    ChainOfAssigned(q, idom, i, y);
    if z in Chain(q.k, after, u) {
      ChainRank(q.k, after, u, z);
      ChainLinear(q.k, after, u, z, v);
    }
  }

  /** Only numbered vertices ever get a parent. */
  lemma SetIsListed(q: Problem, idom: seq<nat>, i: nat, w: nat)
    requires Passing(q, idom, i) && Set(idom, w) && w != q.k.root
    ensures q.Listed(w)
  {
    assert KeptAt(q, idom, w);
  }

  lemma FreshAfter(q: Problem, idom: seq<nat>, i: nat, y: nat, j: nat)
    requires Passing(q, idom, i) && i < |q.order| && q.Numbered(i) && IsMeet(q, idom, q.order[i], y)
    requires j < |q.order| && Set(idom[q.order[i] := y], q.order[j])
    ensures Forest(q.k, idom[q.order[i] := y]) && Fresh(q, idom[q.order[i] := y], i + 1, j)
  {
    var v, w := q.order[i], q.order[j];
    var after := idom[v := y];
    ChainOfAssigned(q, idom, i, y);
    if w == v {
      forall a | a in Chain(q.k, after, after[w]) && a < |q.k.rpo| ensures q.k.rpo[a] <= i + 1 {
        MeetIsEarlier(q, idom, i, y);
        ChainRank(q.k, after, y, a);
      }
    } else {
      assert q.Numbered(j);
      assert Hangs(q.k, idom, w);
      assert Fresh(q, idom, i, j);
      Shrinks(q, idom, i, y, idom[w]);
      forall a | a in Chain(q.k, after, after[w]) && a < |q.k.rpo| && q.k.rpo[a] > i + 1
        ensures Set(after, q.Parent(j)) && a in Chain(q.k, after, q.Parent(j))
      {
        Shrinks(q, idom, i, y, q.Parent(j));
      }
    }
  }

  lemma AlignedAfter(q: Problem, idom: seq<nat>, i: nat, y: nat, j: nat)
    requires Passing(q, idom, i) && i < |q.order| && q.Numbered(i) && IsMeet(q, idom, q.order[i], y)
    requires j <= i
    ensures Forest(q.k, idom[q.order[i] := y]) && Aligned(q, idom[q.order[i] := y], j)
  {
    var v := q.order[i];
    MeetIsEarlier(q, idom, i, y);
    if j == i {
      Shrinks(q, idom, i, y, q.Parent(i));
      NotBelowItself(q, idom, i, i);
    } else {
      assert Aligned(q, idom, j);
      assert q.Numbered(j);
      NotBelowItself(q, idom, i, j);
      Shrinks(q, idom, i, y, q.Parent(j));
    }
  }

  lemma NotBelowItself(q: Problem, idom: seq<nat>, i: nat, j: nat)
    requires q.Valid() && Forest(q.k, idom) && j <= i < |q.order| && Set(idom, q.Parent(j))
    ensures q.order[i] !in Chain(q.k, idom, q.Parent(j))
  {
    if q.order[i] in Chain(q.k, idom, q.Parent(j)) {
      assert q.Numbered(i);
      ChainRank(q.k, idom, q.Parent(j), q.order[i]);
    }
  }

  /** Visiting one vertex keeps the pass invariant. */
  lemma PassStep(q: Problem, idom: seq<nat>, i: nat, y: nat)
    requires Passing(q, idom, i) && i < |q.order| && q.order[i] < |q.preds| && IsMeet(q, idom, q.order[i], y)
    ensures Passing(q, idom[q.order[i] := y], i + 1)
  {
    assert q.Numbered(i);
    var v := q.order[i];
    var after := idom[v := y];
    MeetIsEarlier(q, idom, i, y);
    forall w | Set(after, w) && w != q.k.root ensures KeptAt(q, after, w) {
      if w == v {
        CoversAssigned(q, idom, i, y);
      } else {
        CoversOther(q, idom, i, y, w);
      }
    }
    forall j | 0 <= j < |q.order| && Set(after, q.order[j]) ensures Fresh(q, after, i + 1, j) {
      FreshAfter(q, idom, i, y, j);
    }
    forall j | 0 <= j < i + 1 ensures Aligned(q, after, j) {
      AlignedAfter(q, idom, i, y, j);
    }
  }

  /** The end of one pass is a valid start of the next. */
  lemma NextPass(q: Problem, idom: seq<nat>)
    requires Passing(q, idom, |q.order|)
    ensures Passing(q, idom, 0)
  {
    forall j | 0 <= j < |q.order| && Set(idom, q.order[j]) ensures Fresh(q, idom, 0, j) {
      assert Aligned(q, idom, j);
      assert q.Numbered(j);
      assert Hangs(q.k, idom, q.order[j]);
      ChainNested(q.k, idom, q.Parent(j), idom[q.order[j]]);
    }
  }

  lemma StartIsPassing(q: Problem, idom: seq<nat>)
    requires q.Valid() && |idom| == |q.k.rpo|
    requires forall v | 0 <= v < |idom| :: idom[v] == if v == q.k.root then v else USIZE_MAX
    ensures Passing(q, idom, 0)
  {
    forall j | 0 <= j < |q.order| ensures !Set(idom, q.order[j]) {
      assert q.Numbered(j);
    }
  }

  // ---- Progress ---------------------------------------------------------------------------

  /** The sum of the numbers of all parents; an unset entry counts as more than any number. */
  ghost function RankSum(q: Problem, idom: seq<nat>, n: nat): nat
    requires n <= |idom|
  {
    if n == 0 then 0 else RankSum(q, idom, n - 1) + RankOf(q, idom[n - 1])
  }

  ghost function RankOf(q: Problem, parent: nat): nat {
    if parent < |q.k.rpo| then q.k.rpo[parent] else |q.order| + 1
  }

  lemma {:induction false} RankSumUpdate(q: Problem, idom: seq<nat>, n: nat, v: nat, y: nat)
    requires n <= |idom| && v < |idom|
    ensures RankSum(q, idom[v := y], n) ==
            RankSum(q, idom, n) + if v < n then RankOf(q, y) - RankOf(q, idom[v]) else 0
  {
    if n > 0 {
      RankSumUpdate(q, idom, n - 1, v, y);
    }
  }

  /** An assignment that changes something lowers the sum. */
  lemma ChangeLowersSum(q: Problem, idom: seq<nat>, i: nat, y: nat)
    requires Passing(q, idom, i) && i < |q.order| && q.order[i] < |q.preds| && IsMeet(q, idom, q.order[i], y)
    requires y != idom[q.order[i]]
    ensures RankSum(q, idom[q.order[i] := y], |idom|) < RankSum(q, idom, |idom|)
  {
    assert q.Numbered(i);
    var v := q.order[i];
    RankSumUpdate(q, idom, |idom|, v, y);
    MeetIsEarlier(q, idom, i, y);
    if Set(idom, v) {
      MeetIsAncestor(q, idom, i, y);
      ChainRank(q.k, idom, idom[v], y);
    }
  }

  // ---- The fixpoint -----------------------------------------------------------------------

  ghost predicate SettledAt(q: Problem, idom: seq<nat>, j: nat)
    requires q.Valid() && j < |q.order| && Forest(q.k, idom)
  {
    Set(idom, q.order[j]) && q.order[j] < |q.preds| && Settled(q, idom, q.order[j])
  }

  /** A pass that changed nothing found every parent shared by all predecessors. */
  ghost predicate Fixpoint(q: Problem, idom: seq<nat>) {
    && Passing(q, idom, |q.order|)
    && forall j {:trigger SettledAt(q, idom, j)} | 0 <= j < |q.order| :: SettledAt(q, idom, j)
  }

  lemma ReachableIsSet(q: Problem, idom: seq<nat>, v: nat)
    requires Passing(q, idom, |q.order|) && q.g.Reaches(q.k.root, v)
    ensures Set(idom, v)
  {
    if v != q.k.root {
      assert q.Listed(v);
      assert Aligned(q, idom, q.k.rpo[v] - 1);
    }
  }

  lemma SetIsReachable(q: Problem, idom: seq<nat>, v: nat)
    requires Passing(q, idom, |q.order|) && Set(idom, v)
    ensures q.g.Reaches(q.k.root, v)
  {
    if v == q.k.root {
      ReachesSelf(q.g, v);
    } else {
      SetIsListed(q, idom, |q.order|, v);
      assert q.Numbered(q.k.rpo[v] - 1);
    }
  }

  /** At the fixpoint, every path to `v` meets every member of `v`'s chain. */
  lemma {:induction false} ChainOnEveryPath(q: Problem, idom: seq<nat>, v: nat, z: nat, p: seq<nat>)
    requires Fixpoint(q, idom) && q.g.PathBetween(q.k.root, v, p) && Set(idom, v)
    requires z in Chain(q.k, idom, v)
    ensures z in p
    decreases |p|
  {
    if v != q.k.root && z != v {
      var n := |p| - 2;
      var u := p[n];
      assert q.g.Edge(p[n], p[n + 1]);
      PathPrefix(q.g, p, n);
      assert q.g.Reaches(q.k.root, u);
      ReachableIsSet(q, idom, u);
      SetIsListed(q, idom, |q.order|, v);
      assert SettledAt(q, idom, q.k.rpo[v] - 1);
      assert Hangs(q.k, idom, v);
      ChainNested(q.k, idom, u, idom[v]);
      ChainOnEveryPath(q, idom, u, z, p[..n + 1]);
    }
  }

  /** `idom` is the dominator tree of the part of the graph that the root reaches. */
  ghost predicate IsDominatorTree(q: Problem, idom: seq<nat>) {
    && Forest(q.k, idom)
    && (forall v :: Set(idom, v) <==> q.g.Reaches(q.k.root, v))
    && forall v, d | Set(idom, v) :: d in Chain(q.k, idom, v) <==> q.g.Dominates(q.k.root, d, v)
  }

  lemma FixpointIsDominatorTree(q: Problem, idom: seq<nat>)
    requires Fixpoint(q, idom)
    ensures IsDominatorTree(q, idom)
  {
    forall v ensures Set(idom, v) <==> q.g.Reaches(q.k.root, v) {
      if Set(idom, v) {
        SetIsReachable(q, idom, v);
      } else if q.g.Reaches(q.k.root, v) {
        ReachableIsSet(q, idom, v);
      }
    }
    AllSoundNow(q, idom, |q.order|);
    forall v, d | Set(idom, v) ensures d in Chain(q.k, idom, v) <==> q.g.Dominates(q.k.root, d, v) {
      if d in Chain(q.k, idom, v) {
        forall p | q.g.PathBetween(q.k.root, v, p) ensures d in p {
          ChainOnEveryPath(q, idom, v, d, p);
        }
      } else if q.g.Dominates(q.k.root, d, v) {
        DominatorsInChain(q, idom, v, d);
      }
    }
  }

  /** In a dominator tree, the parent is the immediate dominator: the strict dominator that every
      other strict dominator dominates. */
  lemma ParentIsImmediateDominator(q: Problem, idom: seq<nat>, v: nat)
    requires IsDominatorTree(q, idom) && q.g.Reaches(q.k.root, v) && v != q.k.root
    ensures v < |idom| && idom[v] != v && q.g.Dominates(q.k.root, idom[v], v)
    ensures forall d | q.g.Dominates(q.k.root, d, v) && d != v :: q.g.Dominates(q.k.root, d, idom[v])
  {
    assert Set(idom, v);
    assert Hangs(q.k, idom, v);
    InOwnChain(q.k, idom, idom[v]);
    forall d | q.g.Dominates(q.k.root, d, v) && d != v ensures q.g.Dominates(q.k.root, d, idom[v]) {
      assert d in Chain(q.k, idom, v);
    }
  }

  // ---- The loop ---------------------------------------------------------------------------

  /** `y` summarizes the predecessors `ps` seen so far; `USIZE_MAX` when none has a chain yet. */
  ghost predicate MeetOf(k: Ranks, idom: seq<nat>, ps: seq<nat>, y: nat)
    requires Forest(k, idom)
  {
    if y == USIZE_MAX then forall p | p in ps :: !Set(idom, p)
    else
      && Set(idom, y)
      && forall z :: z in Chain(k, idom, y) <==> forall p | p in ps && Set(idom, p) :: z in Chain(k, idom, p)
  }

  lemma MeetOfSkip(k: Ranks, idom: seq<nat>, ps: seq<nat>, y: nat, p: nat)
    requires Forest(k, idom) && MeetOf(k, idom, ps, y) && !Set(idom, p)
    ensures MeetOf(k, idom, ps + [p], y)
  {
    if y != USIZE_MAX {
      forall z ensures z in Chain(k, idom, y) <==> forall u | u in ps + [p] && Set(idom, u) :: z in Chain(k, idom, u) {
        if z in Chain(k, idom, y) {
        } else {
          var u :| u in ps && Set(idom, u) && z !in Chain(k, idom, u);
          assert u in ps + [p];
        }
      }
    }
  }

  lemma MeetOfAdd(k: Ranks, idom: seq<nat>, ps: seq<nat>, y: nat, p: nat, y': nat)
    requires Forest(k, idom) && MeetOf(k, idom, ps, y) && Set(idom, p) && Set(idom, y') && y' != USIZE_MAX
    requires y == USIZE_MAX ==> y' == p
    requires y != USIZE_MAX ==> Chain(k, idom, y') == Shared(k, idom, y, p)
    ensures MeetOf(k, idom, ps + [p], y')
  {
    forall z ensures z in Chain(k, idom, y') <==> forall u | u in ps + [p] && Set(idom, u) :: z in Chain(k, idom, u) {
      if z in Chain(k, idom, y') {
      } else if z in Chain(k, idom, p) {
        var u :| u in ps && Set(idom, u) && z !in Chain(k, idom, u);
        assert u in ps + [p];
      } else {
        assert p in ps + [p];
      }
    }
  }

  /** Fold `intersect` over the processed predecessors of `order[i]`. */
  method MeetPredecessors(q: Problem, idom: seq<nat>, i: nat) returns (newIdom: nat)
    requires Passing(q, idom, i) && i < |q.order|
    ensures newIdom != USIZE_MAX && q.order[i] < |q.preds| && IsMeet(q, idom, q.order[i], newIdom)
  {
    assert q.Numbered(i);
    var v := q.order[i];
    newIdom := USIZE_MAX;
    for m := 0 to |q.preds[v]|
      invariant MeetOf(q.k, idom, q.preds[v][..m], newIdom)
    {
      var p := q.preds[v][m];
      assert q.preds[v][..m + 1] == q.preds[v][..m] + [p];
      assert p in q.preds[v];
      PredecessorInRange(q, v, p);
      if idom[p] == USIZE_MAX {
        MeetOfSkip(q.k, idom, q.preds[v][..m], newIdom, p);
      } else {
        var met := p;
        if newIdom != USIZE_MAX {
          met := Intersect(q.k, idom, newIdom, p);
        }
        MeetOfAdd(q.k, idom, q.preds[v][..m], newIdom, p, met);
        newIdom := met;
      }
    }
    assert q.preds[v][..|q.preds[v]|] == q.preds[v];
    ParentIsSet(q, idom, i);
  }

  lemma PredecessorInRange(q: Problem, v: nat, p: nat)
    requires q.Valid() && v < |q.preds| && p in q.preds[v]
    ensures p < |q.k.rpo|
  {
    assert q.g.Edge(p, v);
  }

  /** One pass under way: it started from `start`, and either lowered the sum or changed nothing. */
  ghost predicate InPass(q: Problem, start: seq<nat>, idom: seq<nat>, i: nat, changed: bool) {
    && Passing(q, idom, i) && |idom| == |start|
    && if changed then RankSum(q, idom, |idom|) < RankSum(q, start, |start|)
       else idom == start && forall j {:trigger SettledAt(q, start, j)} | 0 <= j < i :: SettledAt(q, start, j)
  }

  lemma PassChanges(q: Problem, start: seq<nat>, idom: seq<nat>, i: nat, changed: bool, y: nat)
    requires InPass(q, start, idom, i, changed) && i < |q.order| && q.order[i] < |q.preds|
        && IsMeet(q, idom, q.order[i], y)
    requires q.order[i] < |idom| && y != idom[q.order[i]]
    ensures InPass(q, start, idom[q.order[i] := y], i + 1, true)
  {
    PassStep(q, idom, i, y);
    ChangeLowersSum(q, idom, i, y);
  }

  lemma PassKeeps(q: Problem, start: seq<nat>, idom: seq<nat>, i: nat, changed: bool)
    requires InPass(q, start, idom, i, changed) && i < |q.order| && q.order[i] < |q.preds| && q.order[i] < |idom|
    requires IsMeet(q, idom, q.order[i], idom[q.order[i]]) && idom[q.order[i]] != USIZE_MAX
    ensures InPass(q, start, idom, i + 1, changed)
  {
    var v := q.order[i];
    var y := idom[v];
    PassStep(q, idom, i, y);
    assert idom[v := y] == idom;
    if !changed {
      assert SettledAt(q, start, i) by {
        InOwnChain(q.k, start, y);
        assert SharedByPredecessors(q, start, v, y);
      }
    }
  }

  lemma PassEnds(q: Problem, start: seq<nat>, idom: seq<nat>, changed: bool)
    requires InPass(q, start, idom, |q.order|, changed)
    ensures changed ==> Passing(q, idom, 0)
    ensures !changed ==> Fixpoint(q, idom)
  {
    if changed {
      NextPass(q, idom);
    } else {
      assert idom == start;
    }
  }

  /** One pass over the vertices in reverse post-order. */
  method Pass(q: Problem, idom: array<nat>) returns (changed: bool)
    requires Passing(q, idom[..], 0)
    modifies idom
    ensures if changed then Passing(q, idom[..], 0)
        && RankSum(q, idom[..], idom.Length) < old(RankSum(q, idom[..], idom.Length))
            else Fixpoint(q, idom[..]) && idom[..] == old(idom[..])
  {
    ghost var start := idom[..];
    changed := false;
    for i := 0 to |q.order|
      invariant InPass(q, start, idom[..], i, changed)
    {
      ghost var before := idom[..];
      assert q.Numbered(i);
      var v := q.order[i];
      var newIdom := MeetPredecessors(q, idom[..], i);
      if newIdom != USIZE_MAX && idom[v] != newIdom {
        PassChanges(q, start, before, i, changed, newIdom);
        idom[v] := newIdom;
        changed := true;
        assert idom[..] == before[v := newIdom];
      } else {
        PassKeeps(q, start, before, i, changed);
      }
    }
    PassEnds(q, start, idom[..], changed);
  }

  /** Passes over the vertices until one changes nothing. */
  method ImmediateDominators(q: Problem) returns (result: seq<nat>)
    requires q.Valid()
    ensures IsDominatorTree(q, result)
  {
    var idom := new nat[|q.k.rpo|](_ => USIZE_MAX);
    idom[q.k.root] := q.k.root;
    StartIsPassing(q, idom[..]);
    var changed := true;
    while changed
      invariant if changed then Passing(q, idom[..], 0) else Fixpoint(q, idom[..])
      decreases RankSum(q, idom[..], idom.Length), changed
    {
      changed := Pass(q, idom);
    }
    result := idom[..];
    FixpointIsDominatorTree(q, result);
  }
}
