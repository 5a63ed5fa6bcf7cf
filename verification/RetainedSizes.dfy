/** Folding every vertex's bytes and count into its dominators, leaves first. */
module RetainedSizes {
  import opened Weights
  import opened DominatorForest
  import opened DepthFirst

  /** The vertices whose chain passes through `v`: the subtree that `v` roots. */
  ghost function Under(k: Ranks, idom: seq<nat>, v: nat): set<nat>
    requires Forest(k, idom)
  {
    set u: nat | u < |idom| && Set(idom, u) && v in Chain(k, idom, u) :: u
  }

  /** What has been folded into `v` once the children in `done` are complete. */
  ghost function Gathered(k: Ranks, idom: seq<nat>, done: set<nat>, v: nat): set<nat>
    requires Forest(k, idom)
  {
    set u: nat | u < |idom| && Set(idom, u) && (u == v || Below(k, idom, done, v, u)) :: u
  }

  ghost predicate Below(k: Ranks, idom: seq<nat>, done: set<nat>, v: nat, u: nat)
    requires Forest(k, idom) && Set(idom, u)
  {
    exists c | c in done :: IsChild(k, idom, v, c) && c in Chain(k, idom, u)
  }

  ghost predicate IsChild(k: Ranks, idom: seq<nat>, v: nat, c: nat) {
    Set(idom, c) && c != k.root && idom[c] == v
  }

  /** The child of `v` on the way from `u` up to `v`. */
  lemma {:induction false} ChildTowards(k: Ranks, idom: seq<nat>, v: nat, u: nat) returns (c: nat)
    requires Forest(k, idom) && Set(idom, u) && v in Chain(k, idom, u) && u != v
    ensures IsChild(k, idom, v, c) && c in Chain(k, idom, u)
    decreases k.rpo[u]
  {
    assert Hangs(k, idom, u);
    c := u;
    if idom[u] != v {
      c := ChildTowards(k, idom, v, idom[u]);
    }
  }

  lemma ChildChain(k: Ranks, idom: seq<nat>, v: nat, c: nat, u: nat)
    requires Forest(k, idom) && IsChild(k, idom, v, c) && Set(idom, u) && c in Chain(k, idom, u)
    ensures Set(idom, v) && v in Chain(k, idom, u) && k.rpo[v] < k.rpo[c]
  {
    assert Hangs(k, idom, c);
    ChainNested(k, idom, u, c);
    assert v in Chain(k, idom, v);
    assert v in Chain(k, idom, c);
  }

  /** The subtrees of two siblings share no vertex. */
  lemma SiblingsDisjoint(k: Ranks, idom: seq<nat>, v: nat, c: nat, d: nat, u: nat)
    requires Forest(k, idom) && IsChild(k, idom, v, c) && IsChild(k, idom, v, d)
    requires Set(idom, u) && c in Chain(k, idom, u) && d in Chain(k, idom, u)
    ensures c == d
  {
    if k.rpo[c] <= k.rpo[d] {
      NotStrictlyAbove(k, idom, v, c, d, u);
    } else {
      NotStrictlyAbove(k, idom, v, d, c, u);
    }
  }

  lemma NotStrictlyAbove(k: Ranks, idom: seq<nat>, v: nat, c: nat, d: nat, u: nat)
    requires Forest(k, idom) && IsChild(k, idom, v, c) && IsChild(k, idom, v, d)
    requires Set(idom, u) && c in Chain(k, idom, u) && d in Chain(k, idom, u)
    requires k.rpo[c] <= k.rpo[d]
    ensures c == d
  {
    ChainLinear(k, idom, u, c, d);
    if c != d {
      assert Hangs(k, idom, d);
      ChainRank(k, idom, v, c);
      ChildChain(k, idom, v, c, c);
    }
  }

  lemma AllChildrenGathered(k: Ranks, idom: seq<nat>, done: set<nat>, v: nat)
    requires Forest(k, idom) && Set(idom, v)
    requires forall c | IsChild(k, idom, v, c) :: c in done
    ensures Gathered(k, idom, done, v) == Under(k, idom, v)
  {
    forall u | Set(idom, u) ensures (u == v || Below(k, idom, done, v, u)) <==> v in Chain(k, idom, u) {
      if u != v && v in Chain(k, idom, u) {
        var c := ChildTowards(k, idom, v, u);
      } else if u != v && Below(k, idom, done, v, u) {
        var c :| c in done && IsChild(k, idom, v, c) && c in Chain(k, idom, u);
        ChildChain(k, idom, v, c, u);
      }
    }
  }

  lemma GatherChild(k: Ranks, idom: seq<nat>, done: set<nat>, v: nat, c: nat)
    requires Forest(k, idom) && IsChild(k, idom, v, c) && c !in done
    ensures Gathered(k, idom, done + {c}, v) == Gathered(k, idom, done, v) + Under(k, idom, c)
    ensures Gathered(k, idom, done, v) !! Under(k, idom, c)
  {
    forall u | Set(idom, u) && c in Chain(k, idom, u) ensures u != v && !Below(k, idom, done, v, u) {
      if u == v {
        ChildChain(k, idom, v, c, u);
        ChainRank(k, idom, v, c);
      } else if Below(k, idom, done, v, u) {
        var d :| d in done && IsChild(k, idom, v, d) && d in Chain(k, idom, u);
        SiblingsDisjoint(k, idom, v, c, d, u);
      }
    }
    forall u | Set(idom, u)
      ensures Below(k, idom, done + {c}, v, u) <==> Below(k, idom, done, v, u) || c in Chain(k, idom, u)
    {
      if Below(k, idom, done, v, u) {
        var d :| d in done && IsChild(k, idom, v, d) && d in Chain(k, idom, u);
        assert d in done + {c};
      }
      if c in Chain(k, idom, u) {
        assert c in done + {c};
      }
    }
  }

  lemma GatherOther(k: Ranks, idom: seq<nat>, done: set<nat>, v: nat, c: nat)
    requires Forest(k, idom) && !IsChild(k, idom, v, c)
    ensures Gathered(k, idom, done + {c}, v) == Gathered(k, idom, done, v)
  {
    forall u | Set(idom, u) ensures Below(k, idom, done + {c}, v, u) <==> Below(k, idom, done, v, u) {
      if Below(k, idom, done, v, u) {
        var d :| d in done && IsChild(k, idom, v, d) && d in Chain(k, idom, u);
        assert d in done + {c};
      }
    }
  }

  /** The vertices of `post` in reverse are numbered 0, 1, 2, ... */
  ghost predicate NumberedInReverse(k: Ranks, idom: seq<nat>, post: seq<nat>) {
    && Forest(k, idom)
    && Distinct(post)
    && (forall v :: v in post <==> Set(idom, v))
    && (forall i | 0 <= i < |post| :: post[i] < |k.rpo| && k.rpo[post[i]] == |post| - 1 - i)
  }

  ghost function Firsts(post: seq<nat>, n: nat): set<nat>
    requires n <= |post|
  {
    set i | 0 <= i < n :: post[i]
  }

  lemma ChildrenComeFirst(k: Ranks, idom: seq<nat>, post: seq<nat>, i: nat)
    requires NumberedInReverse(k, idom, post) && i < |post|
    ensures forall c | IsChild(k, idom, post[i], c) :: c in Firsts(post, i)
    ensures post[i] !in Firsts(post, i)
  {
    forall c | IsChild(k, idom, post[i], c) ensures c in Firsts(post, i) {
      assert Hangs(k, idom, c);
      assert c in post;
      var j :| 0 <= j < |post| && post[j] == c;
    }
  }

  /** The state of both accumulators once the vertices in `done` were pushed into their parents. */
  ghost predicate Accumulated(k: Ranks, idom: seq<nat>, done: set<nat>, own: seq<nat>, acc: seq<nat>) {
    && Forest(k, idom)
    && |own| == |acc| == |idom|
    && forall v: nat {:trigger Gathered(k, idom, done, v)} | Set(idom, v) ::
        acc[v] == Weight(own, Gathered(k, idom, done, v))
  }

  lemma AccumulatedInitially(k: Ranks, idom: seq<nat>, own: seq<nat>)
    requires Forest(k, idom) && |own| == |idom|
    ensures Accumulated(k, idom, {}, own, own)
  {
    forall v: nat | Set(idom, v) ensures own[v] == Weight(own, Gathered(k, idom, {}, v)) {
      assert Gathered(k, idom, {}, v) == {v};
      WeightSplit(own, {v}, v);
      assert {v} - {v} == {};
    }
  }

  lemma AccumulateStep(k: Ranks, idom: seq<nat>, post: seq<nat>, i: nat, own: seq<nat>, acc: seq<nat>)
    requires NumberedInReverse(k, idom, post) && i < |post| && post[i] != k.root
    requires Accumulated(k, idom, Firsts(post, i), own, acc)
    ensures Set(idom, post[i]) && Set(idom, idom[post[i]]) && idom[post[i]] != post[i]
    ensures Accumulated(k, idom, Firsts(post, i + 1), own, acc[idom[post[i]] := acc[idom[post[i]]] + acc[post[i]]])
  {
    var c, done := post[i], Firsts(post, i);
    assert c in post;
    assert Hangs(k, idom, c);
    var p := idom[c];
    var acc' := acc[p := acc[p] + acc[c]];
    assert Firsts(post, i + 1) == done + {c};
    ChildrenComeFirst(k, idom, post, i);
    AllChildrenGathered(k, idom, done, c);
    forall v: nat | Set(idom, v) ensures acc'[v] == Weight(own, Gathered(k, idom, done + {c}, v)) {
      if v == p {
        GatherChild(k, idom, done, p, c);
        WeightUnion(own, Gathered(k, idom, done, p), Under(k, idom, c));
      } else {
        GatherOther(k, idom, done, v, c);
      }
    }
  }

  lemma AccumulateRoot(k: Ranks, idom: seq<nat>, post: seq<nat>, i: nat, own: seq<nat>, acc: seq<nat>)
    requires NumberedInReverse(k, idom, post) && i < |post| && post[i] == k.root
    requires Accumulated(k, idom, Firsts(post, i), own, acc)
    ensures Accumulated(k, idom, Firsts(post, i + 1), own, acc)
  {
    assert Firsts(post, i + 1) == Firsts(post, i) + {post[i]};
    forall v: nat | Set(idom, v) ensures acc[v] == Weight(own, Gathered(k, idom, Firsts(post, i + 1), v)) {
      GatherOther(k, idom, Firsts(post, i), v, post[i]);
    }
  }

  lemma AccumulatedFinally(k: Ranks, idom: seq<nat>, post: seq<nat>, own: seq<nat>, acc: seq<nat>)
    requires NumberedInReverse(k, idom, post) && Accumulated(k, idom, Firsts(post, |post|), own, acc)
    ensures forall v: nat {:trigger Under(k, idom, v)} | Set(idom, v) :: acc[v] == Weight(own, Under(k, idom, v))
  {
    forall v: nat | Set(idom, v) ensures acc[v] == Weight(own, Under(k, idom, v)) {
      forall c | IsChild(k, idom, v, c) ensures c in Firsts(post, |post|) {
        assert c in post;
      }
      AllChildrenGathered(k, idom, Firsts(post, |post|), v);
    }
  }

  /** The post-order fold: each completed vertex is pushed into its parent. */
  method FoldIntoDominators(k: Ranks, idom: seq<nat>, post: seq<nat>, ownBytes: seq<nat>, ownCount: seq<nat>)
    returns (retainedBytes: array<nat>, retainedCount: array<nat>)
    requires NumberedInReverse(k, idom, post)
    requires |ownBytes| == |ownCount| == |idom|
    ensures retainedBytes.Length == retainedCount.Length == |idom|
    ensures forall v: nat {:trigger Under(k, idom, v)} | Set(idom, v) ::
              && retainedBytes[v] == Weight(ownBytes, Under(k, idom, v))
              && retainedCount[v] == Weight(ownCount, Under(k, idom, v))
  {
    retainedBytes := new nat[|idom|](v requires 0 <= v < |idom| => ownBytes[v]);
    retainedCount := new nat[|idom|](v requires 0 <= v < |idom| => ownCount[v]);
    assert retainedBytes[..] == ownBytes && retainedCount[..] == ownCount;
    AccumulatedInitially(k, idom, ownBytes);
    AccumulatedInitially(k, idom, ownCount);
    assert Firsts(post, 0) == {};
    for i := 0 to |post|
      invariant retainedBytes.Length == retainedCount.Length == |idom|
      invariant retainedBytes != retainedCount
      invariant Accumulated(k, idom, Firsts(post, i), ownBytes, retainedBytes[..])
      invariant Accumulated(k, idom, Firsts(post, i), ownCount, retainedCount[..])
    {
      var v := post[i];
      assert v in post;
      assert v != k.root ==> Hangs(k, idom, v);
      ghost var bytesBefore, countBefore := retainedBytes[..], retainedCount[..];
      if v == k.root || idom[v] == USIZE_MAX || idom[v] == v {
        AccumulateRoot(k, idom, post, i, ownBytes, bytesBefore);
        AccumulateRoot(k, idom, post, i, ownCount, countBefore);
      } else {
        AccumulateStep(k, idom, post, i, ownBytes, bytesBefore);
        AccumulateStep(k, idom, post, i, ownCount, countBefore);
        var bytesV, countV := retainedBytes[v], retainedCount[v];
        retainedBytes[idom[v]] := retainedBytes[idom[v]] + bytesV;
        retainedCount[idom[v]] := retainedCount[idom[v]] + countV;
        assert retainedBytes[..] == bytesBefore[idom[v] := bytesBefore[idom[v]] + bytesBefore[v]];
        assert retainedCount[..] == countBefore[idom[v] := countBefore[idom[v]] + countBefore[v]];
      }
    }
    AccumulatedFinally(k, idom, post, ownBytes, retainedBytes[..]);
    AccumulatedFinally(k, idom, post, ownCount, retainedCount[..]);
  }

  /** The subtrees of any set of siblings add up to the weight of their union. */
  lemma {:induction false} SiblingsAddUp(
      k: Ranks, idom: seq<nat>, v: nat, siblings: set<nat>, own: seq<nat>, acc: seq<nat>)
    requires Forest(k, idom) && |acc| == |idom|
    requires forall c | c in siblings :: IsChild(k, idom, v, c)
    requires forall c {:trigger Under(k, idom, c)} | c in siblings :: At(acc, c) == Weight(own, Under(k, idom, c))
    ensures Weight(acc, siblings) == Weight(own, UnderAny(k, idom, siblings))
  {
    if siblings == {} {
      assert UnderAny(k, idom, siblings) == {};
    } else {
      var c :| c in siblings;
      var rest := siblings - {c};
      SiblingsAddUp(k, idom, v, rest, own, acc);
      WeightSplit(acc, siblings, c);
      assert At(acc, c) == Weight(own, Under(k, idom, c));
      assert UnderAny(k, idom, siblings) == UnderAny(k, idom, rest) + Under(k, idom, c);
      forall u | u in UnderAny(k, idom, rest) ensures u !in Under(k, idom, c) {
        if u in Under(k, idom, c) {
          var d :| d in rest && u in Under(k, idom, d);
          SiblingsDisjoint(k, idom, v, c, d, u);
        }
      }
      WeightUnion(own, UnderAny(k, idom, rest), Under(k, idom, c));
    }
  }

  ghost function UnderAny(k: Ranks, idom: seq<nat>, tops: set<nat>): set<nat>
    requires Forest(k, idom)
  {
    set c, u | c in tops && u in Under(k, idom, c) :: u
  }
}
