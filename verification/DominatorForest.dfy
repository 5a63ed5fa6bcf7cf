/** The iterative Cooper-Harvey-Kennedy dominator algorithm over a shared `idom` array. */
module DominatorForest {

  /** The value of an unset `idom` entry and of the number of an unreachable vertex. */
  const USIZE_MAX: nat := 0xFFFF_FFFF_FFFF_FFFF

  /** The root and the reverse post-order number of every vertex. */
  datatype Ranks = Ranks(root: nat, rpo: seq<nat>)
  {
    ghost predicate Valid() {
      && root < |rpo| < USIZE_MAX && rpo[root] == 0
      && forall v, w | 0 <= v < |rpo| && 0 <= w < |rpo| && rpo[v] == rpo[w] != USIZE_MAX :: v == w
    }
  }

  ghost predicate Set(idom: seq<nat>, v: nat) {
    v < |idom| && idom[v] != USIZE_MAX
  }

  ghost predicate Hangs(k: Ranks, idom: seq<nat>, v: nat)
    requires |idom| == |k.rpo| && v < |idom|
  {
    && k.rpo[v] != USIZE_MAX
    && Set(idom, idom[v])
    && k.rpo[idom[v]] < k.rpo[v]
  }

  /** The dominator forest the `idom` array describes at one moment. */
  ghost predicate Forest(k: Ranks, idom: seq<nat>) {
    && k.Valid()
    && |idom| == |k.rpo|
    && idom[k.root] == k.root
    && forall v {:trigger Hangs(k, idom, v)} | Set(idom, v) && v != k.root :: Hangs(k, idom, v)
  }

  /** `v` and everything above it in the forest. */
  ghost function Chain(k: Ranks, idom: seq<nat>, v: nat): set<nat>
    requires Forest(k, idom) && Set(idom, v)
    decreases k.rpo[v]
  {
    if v == k.root then {v} else
    assert Hangs(k, idom, v);
    {v} + Chain(k, idom, idom[v])
  }

  lemma {:induction false} ChainRank(k: Ranks, idom: seq<nat>, v: nat, z: nat)
    requires Forest(k, idom) && Set(idom, v) && z in Chain(k, idom, v)
    ensures Set(idom, z) && k.rpo[z] <= k.rpo[v] && (k.rpo[z] == k.rpo[v] ==> z == v)
    decreases k.rpo[v]
  {
    if z != v {
      assert Hangs(k, idom, v);
      ChainRank(k, idom, idom[v], z);
    }
  }

  lemma {:induction false} ChainNested(k: Ranks, idom: seq<nat>, v: nat, z: nat)
    requires Forest(k, idom) && Set(idom, v) && z in Chain(k, idom, v)
    ensures Set(idom, z) && Chain(k, idom, z) <= Chain(k, idom, v)
    decreases k.rpo[v]
  {
    if z != v {
      assert Hangs(k, idom, v);
      ChainNested(k, idom, idom[v], z);
    }
  }

  /** Two members of one chain: the lower-numbered one is above the other. */
  lemma {:induction false} ChainLinear(k: Ranks, idom: seq<nat>, v: nat, a: nat, b: nat)
    requires Forest(k, idom) && Set(idom, v)
    requires a in Chain(k, idom, v) && b in Chain(k, idom, v)
    requires Set(idom, a) && Set(idom, b) && k.rpo[a] <= k.rpo[b]
    ensures a in Chain(k, idom, b)
    decreases k.rpo[v]
  {
    ChainRank(k, idom, v, b);
    if b != v {
      ChainRank(k, idom, v, a);
      assert Hangs(k, idom, v);
      ChainLinear(k, idom, idom[v], a, b);
    }
  }

  lemma {:induction false} RootInChain(k: Ranks, idom: seq<nat>, v: nat)
    requires Forest(k, idom) && Set(idom, v)
    ensures k.root in Chain(k, idom, v)
    decreases k.rpo[v]
  {
    if v != k.root {
      assert Hangs(k, idom, v);
      RootInChain(k, idom, idom[v]);
    }
  }

  // ---- intersect --------------------------------------------------------------------------

  ghost function Shared(k: Ranks, idom: seq<nat>, a: nat, b: nat): set<nat>
    requires Forest(k, idom) && Set(idom, a) && Set(idom, b)
  {
    Chain(k, idom, a) * Chain(k, idom, b)
  }

  /** Climbing from `a` to its parent keeps what it shares with a lower-numbered `b`. */
  lemma ClimbKeepsShared(k: Ranks, idom: seq<nat>, a: nat, b: nat)
    requires Forest(k, idom) && Set(idom, a) && Set(idom, b)
    requires k.rpo[a] > k.rpo[b]
    ensures Set(idom, idom[a]) && k.rpo[idom[a]] < k.rpo[a]
    ensures Shared(k, idom, a, b) == Shared(k, idom, idom[a], b)
    ensures Shared(k, idom, b, a) == Shared(k, idom, b, idom[a])
  {
    assert Hangs(k, idom, a);
    if a in Chain(k, idom, b) {
      ChainRank(k, idom, b, a);
    }
  }

  lemma RankIsInjective(k: Ranks, idom: seq<nat>, a: nat, b: nat)
    requires Forest(k, idom) && Set(idom, a) && Set(idom, b)
    ensures a == b || k.rpo[a] < k.rpo[b] || k.rpo[b] < k.rpo[a]
  {
    if a != k.root {
      assert Hangs(k, idom, a);
    }
  }

  /** The two-finger climb returns the vertex whose chain is what the two chains share. */
  method Intersect(k: Ranks, idom: seq<nat>, first: nat, second: nat) returns (a: nat)
    requires Forest(k, idom) && Set(idom, first) && Set(idom, second)
    ensures Set(idom, a)
    ensures Chain(k, idom, a) == Shared(k, idom, first, second)
  {
    a := first;
    var b := second;
    while a != b
      invariant Set(idom, a) && Set(idom, b)
      invariant Shared(k, idom, a, b) == Shared(k, idom, first, second)
      decreases k.rpo[a] + k.rpo[b]
    {
      ghost var a0, b0 := a, b;
      RankIsInjective(k, idom, a, b);
      while k.rpo[a] > k.rpo[b]
        invariant Set(idom, a) && k.rpo[a] <= k.rpo[a0]
        invariant k.rpo[a0] > k.rpo[b] && k.rpo[a] <= k.rpo[b] ==> k.rpo[a] < k.rpo[a0]
        invariant Shared(k, idom, a, b) == Shared(k, idom, first, second)
        decreases k.rpo[a]
      {
        ClimbKeepsShared(k, idom, a, b);
        a := idom[a];
      }
      while k.rpo[b] > k.rpo[a]
        invariant Set(idom, b) && k.rpo[b] <= k.rpo[b0]
        invariant k.rpo[b0] > k.rpo[a] && k.rpo[b] <= k.rpo[a] ==> k.rpo[b] < k.rpo[b0]
        invariant Shared(k, idom, a, b) == Shared(k, idom, first, second)
        decreases k.rpo[b]
      {
        ClimbKeepsShared(k, idom, b, a);
        b := idom[b];
      }
    }
  }

  // ---- One assignment of the loop ---------------------------------------------------------

  /** Giving an unset vertex a parent changes no other chain. */
  lemma {:induction false} HangNew(k: Ranks, idom: seq<nat>, v: nat, y: nat, u: nat)
    requires Forest(k, idom) && v < |idom| && idom[v] == USIZE_MAX && Set(idom, y)
    requires k.rpo[v] != USIZE_MAX && k.rpo[y] < k.rpo[v]
    requires Set(idom, u)
    ensures Forest(k, idom[v := y]) && Chain(k, idom[v := y], u) == Chain(k, idom, u)
    decreases k.rpo[u]
  {
    ForestAfter(k, idom, v, y);
    if u != k.root {
      assert Hangs(k, idom, u);
      HangNew(k, idom, v, y, idom[u]);
    }
  }

  lemma ForestAfter(k: Ranks, idom: seq<nat>, v: nat, y: nat)
    requires Forest(k, idom) && v < |idom| && Set(idom, y) && v != k.root
    requires k.rpo[v] != USIZE_MAX && k.rpo[y] < k.rpo[v]
    ensures Forest(k, idom[v := y])
  {
    var after := idom[v := y];
    forall u | Set(after, u) && u != k.root ensures Hangs(k, after, u) {
      if u != v {
        assert Hangs(k, idom, u);
      }
    }
  }

  /** What lies between `v` and its ancestor `y`, in the current forest. */
  ghost function Between(k: Ranks, idom: seq<nat>, v: nat, y: nat): set<nat>
    requires Forest(k, idom) && Set(idom, v) && v != k.root && Set(idom, y)
  {
    assert Hangs(k, idom, v);
    Chain(k, idom, idom[v]) - Chain(k, idom, y)
  }

  /** Moving `v` up to an ancestor `y` drops, from every chain through `v`, what lay between them. */
  lemma {:induction false} MoveUp(k: Ranks, idom: seq<nat>, v: nat, y: nat, u: nat)
    requires Forest(k, idom) && Set(idom, v) && v != k.root && Set(idom, u)
    requires Set(idom, idom[v]) && Set(idom, y) && y in Chain(k, idom, idom[v])
    requires Forest(k, idom[v := y])
    ensures Chain(k, idom[v := y], u) ==
            if v in Chain(k, idom, u) then Chain(k, idom, u) - Between(k, idom, v, y) else Chain(k, idom, u)
    decreases k.rpo[u]
  {
    if u == v {
      MoveUpSelf(k, idom, v, y);
    } else if u != k.root {
      var after := idom[v := y];
      assert Hangs(k, idom, u);
      MoveUp(k, idom, v, y, idom[u]);
      assert Chain(k, after, u) == {u} + Chain(k, after, idom[u]);
      if v in Chain(k, idom, idom[u]) && u in Chain(k, idom, idom[v]) {
        ChainRank(k, idom, idom[u], v);
        assert Hangs(k, idom, v);
        ChainRank(k, idom, idom[v], u);
      }
    }
  }

  lemma MoveUpSelf(k: Ranks, idom: seq<nat>, v: nat, y: nat)
    requires Forest(k, idom) && Set(idom, v) && v != k.root
    requires Set(idom, idom[v]) && Set(idom, y) && y in Chain(k, idom, idom[v])
    requires Forest(k, idom[v := y])
    ensures Chain(k, idom[v := y], v) == Chain(k, idom, v) - Between(k, idom, v, y)
  {
    assert Hangs(k, idom, v);
    ChainRank(k, idom, idom[v], y);
    ChainBelowUnchanged(k, idom, v, y, y);
    ChainNested(k, idom, idom[v], y);
    if v in Chain(k, idom, idom[v]) {
      ChainRank(k, idom, idom[v], v);
    }
    assert Chain(k, idom[v := y], v) == {v} + Chain(k, idom[v := y], y);
  }

  /** Chains of vertices numbered before `v` do not see an assignment to `v`. */
  lemma {:induction false} ChainBelowUnchanged(k: Ranks, idom: seq<nat>, v: nat, y: nat, u: nat)
    requires Forest(k, idom) && v < |idom| && Forest(k, idom[v := y]) && v != k.root
    requires Set(idom, u) && k.rpo[u] < k.rpo[v]
    ensures Set(idom[v := y], u) && Chain(k, idom[v := y], u) == Chain(k, idom, u)
    decreases k.rpo[u]
  {
    if u != k.root {
      assert Hangs(k, idom, u);
      ChainBelowUnchanged(k, idom, v, y, idom[u]);
    }
  }
}
