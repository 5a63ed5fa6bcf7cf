/** Mark-on-push worklist reachability from several start vertices. */
module Worklist {
  import opened Digraphs
  import opened DepthFirst

  ghost predicate ReachesFromAny(g: Digraph, starts: seq<nat>, v: nat) {
    exists e | e in starts :: g.Reaches(e, v)
  }

  predicate AllMarked(s: seq<nat>, marked: seq<bool>) {
    forall v: nat | v in s :: v < |marked| && marked[v]
  }

  ghost predicate MarkedAreReachable(g: Digraph, starts: seq<nat>, marked: seq<bool>) {
    forall v | 0 <= v < |marked| && marked[v] :: ReachesFromAny(g, starts, v)
  }

  ghost predicate ClosedOutside(g: Digraph, pending: seq<nat>, marked: seq<bool>) {
    forall v: nat {:trigger SuccessorsMarked(g, marked, v)} |
      v < |marked| && marked[v] && v !in pending :: SuccessorsMarked(g, marked, v)
  }

  /** Every marked vertex is reachable; an unmarked successor exists only of a pending vertex. */
  ghost predicate Marking(g: Digraph, starts: seq<nat>, stack: seq<nat>, marked: seq<bool>) {
    && |marked| == |g.succs|
    && AllMarked(stack, marked) && AllMarked(starts, marked)
    && MarkedAreReachable(g, starts, marked) && ClosedOutside(g, stack, marked)
  }

  lemma MarkedFrom(g: Digraph, starts: seq<nat>, marked: seq<bool>, e: nat, v: nat)
    requires Marking(g, starts, [], marked) && e in starts && g.Reaches(e, v)
    ensures v < |marked| && marked[v]
  {
    var closed := set u: nat | u < |marked| && marked[u];
    forall u: nat, w: nat | u in closed && g.Edge(u, w) ensures w in closed {
      assert SuccessorsMarked(g, marked, u);
    }
    assert e in closed;
    ClosedContainsReachable(g, e, closed);
  }

  lemma MarkedIsReachable(g: Digraph, starts: seq<nat>, marked: seq<bool>)
    requires Marking(g, starts, [], marked)
    ensures forall v | 0 <= v < |marked| :: marked[v] <==> ReachesFromAny(g, starts, v)
  {
    forall v: nat | v < |marked| && ReachesFromAny(g, starts, v) ensures marked[v] {
      var e :| e in starts && g.Reaches(e, v);
      MarkedFrom(g, starts, marked, e, v);
    }
  }

  ghost predicate SuccessorsMarked(g: Digraph, marked: seq<bool>, u: nat) {
    forall w: nat | g.Edge(u, w) :: w < |marked| && marked[w]
  }

  /** The part of one expansion that is done: `v` was popped and its first `c` successors seen. */
  ghost predicate Expanding(g: Digraph, starts: seq<nat>, v: nat, c: nat, stack: seq<nat>, marked: seq<bool>) {
    && |marked| == |g.succs|
    && v < |marked| && marked[v] && c <= |g.succs[v]|
    && AllMarked(stack, marked) && AllMarked(starts, marked)
    && MarkedAreReachable(g, starts, marked) && ClosedOutside(g, stack + [v], marked)
    && AllMarked(g.succs[v][..c], marked)
  }

  lemma StepReaches(g: Digraph, starts: seq<nat>, v: nat, w: nat)
    requires ReachesFromAny(g, starts, v) && g.Edge(v, w)
    ensures ReachesFromAny(g, starts, w)
  {
    var e :| e in starts && g.Reaches(e, v);
    ReachesStep(g, e, v, w);
  }

  lemma MarkKeepsAll(s: seq<nat>, marked: seq<bool>, w: nat)
    requires AllMarked(s, marked) && w < |marked|
    ensures AllMarked(s, marked[w := true]) && AllMarked(s + [w], marked[w := true])
  {
  }

  lemma MarkKeepsReachable(g: Digraph, starts: seq<nat>, marked: seq<bool>, w: nat)
    requires MarkedAreReachable(g, starts, marked) && w < |marked| && ReachesFromAny(g, starts, w)
    ensures MarkedAreReachable(g, starts, marked[w := true])
  {
  }

  lemma MarkKeepsClosed(g: Digraph, pending: seq<nat>, marked: seq<bool>, w: nat, after: seq<nat>)
    requires ClosedOutside(g, pending, marked) && w < |marked| && w in after && forall v: nat | v in pending ::
        v in after
    ensures ClosedOutside(g, after, marked[w := true])
  {
    forall v: nat {:trigger SuccessorsMarked(g, marked[w := true], v)} |
        v < |marked| && marked[w := true][v] && v !in after
      ensures SuccessorsMarked(g, marked[w := true], v)
    {
      assert SuccessorsMarked(g, marked, v);
    }
  }

  lemma ExpandMark(g: Digraph, starts: seq<nat>, v: nat, c: nat, stack: seq<nat>, marked: seq<bool>)
    requires Expanding(g, starts, v, c, stack, marked) && c < |g.succs[v]|
    requires g.succs[v][c] < |marked| && !marked[g.succs[v][c]]
    ensures Expanding(g, starts, v, c + 1, stack + [g.succs[v][c]], marked[g.succs[v][c] := true])
  {
    var w := g.succs[v][c];
    StepReaches(g, starts, v, w);
    MarkKeepsAll(stack, marked, w);
    MarkKeepsAll(starts, marked, w);
    MarkKeepsReachable(g, starts, marked, w);
    MarkKeepsClosed(g, stack + [v], marked, w, stack + [w] + [v]);
    MarkKeepsAll(g.succs[v][..c], marked, w);
    assert g.succs[v][..c + 1] == g.succs[v][..c] + [w];
  }

  lemma ExpandSkip(g: Digraph, starts: seq<nat>, v: nat, c: nat, stack: seq<nat>, marked: seq<bool>)
    requires Expanding(g, starts, v, c, stack, marked) && c < |g.succs[v]|
    requires g.succs[v][c] < |marked| && marked[g.succs[v][c]]
    ensures Expanding(g, starts, v, c + 1, stack, marked)
  {
    assert g.succs[v][..c + 1] == g.succs[v][..c] + [g.succs[v][c]];
  }

  lemma StartMarking(g: Digraph, starts: seq<nat>, marked: seq<bool>)
    requires |marked| == |g.succs| && forall e: nat | e in starts :: e < |g.succs|
    requires forall v | 0 <= v < |marked| :: marked[v] <==> v in starts
    ensures Marking(g, starts, starts, marked)
  {
    forall v | 0 <= v < |marked| && marked[v] ensures ReachesFromAny(g, starts, v) {
      ReachesSelf(g, v);
    }
  }

  lemma StartExpanding(g: Digraph, starts: seq<nat>, stack: seq<nat>, v: nat, marked: seq<bool>)
    requires Marking(g, starts, stack + [v], marked)
    ensures Expanding(g, starts, v, 0, stack, marked)
  {
    assert v in stack + [v];
    forall u: nat | u in stack ensures u < |marked| && marked[u] {
      assert u in stack + [v];
    }
    forall u: nat | u < |marked| && marked[u] && u !in stack && u != v ensures SuccessorsMarked(g, marked, u) {
      assert u !in stack + [v];
    }
  }

  lemma FinishExpanding(g: Digraph, starts: seq<nat>, stack: seq<nat>, v: nat, marked: seq<bool>)
    requires v < |g.succs| && Expanding(g, starts, v, |g.succs[v]|, stack, marked)
    ensures Marking(g, starts, stack, marked)
  {
    assert g.succs[v][..|g.succs[v]|] == g.succs[v];
    assert SuccessorsMarked(g, marked, v);
    forall u: nat {:trigger SuccessorsMarked(g, marked, u)} | u < |marked| && marked[u] && u !in stack
      ensures SuccessorsMarked(g, marked, u)
    {
      if u != v {
        assert u !in stack + [v];
      }
    }
  }

  /** Marks and pushes the unmarked successors of a vertex that was popped. */
  method Expand(g: Digraph, starts: seq<nat>, v: nat, stack: seq<nat>, marked: array<bool>) returns (next: seq<nat>)
    requires g.Valid() && v < |g.succs| && Expanding(g, starts, v, 0, stack, marked[..])
    modifies marked
    ensures Marking(g, starts, next, marked[..])
    ensures Unseen(marked[..]) < old(Unseen(marked[..]))
        || (Unseen(marked[..]) == old(Unseen(marked[..])) && |next| <= |stack|)
  {
    next := stack;
    for c := 0 to |g.succs[v]|
      invariant Expanding(g, starts, v, c, next, marked[..])
      invariant Unseen(marked[..]) < old(Unseen(marked[..]))
          || (Unseen(marked[..]) == old(Unseen(marked[..])) && |next| <= |stack|)
    {
      var to := g.succs[v][c];
      assert g.Edge(v, to);
      if !marked[to] {
        ghost var before := marked[..];
        ExpandMark(g, starts, v, c, next, before);
        UnseenDrops(before, to);
        marked[to] := true;
        assert marked[..] == before[to := true];
        next := next + [to];
      } else {
        ExpandSkip(g, starts, v, c, next, marked[..]);
      }
    }
    FinishExpanding(g, starts, next, v, marked[..]);
  }

  method MarkReachable(g: Digraph, starts: seq<nat>) returns (result: seq<bool>)
    requires g.Valid() && forall e: nat | e in starts :: e < |g.succs|
    ensures |result| == |g.succs|
    ensures forall v | 0 <= v < |result| :: result[v] <==> ReachesFromAny(g, starts, v)
  {
    var marked := new bool[|g.succs|](_ => false);
    for i := 0 to |starts|
      invariant forall v | 0 <= v < marked.Length :: marked[v] <==> v in starts[..i]
    {
      assert starts[i] in starts && starts[..i + 1] == starts[..i] + [starts[i]];
      marked[starts[i]] := true;
    }
    var stack := starts;
    StartMarking(g, starts, marked[..]);
    while stack != []
      invariant Marking(g, starts, stack, marked[..])
      decreases Unseen(marked[..]), |stack|
    {
      var v := stack[|stack| - 1];
      assert stack == stack[..|stack| - 1] + [v];
      StartExpanding(g, starts, stack[..|stack| - 1], v, marked[..]);
      stack := Expand(g, starts, v, stack[..|stack| - 1], marked);
    }
    MarkedIsReachable(g, starts, marked[..]);
    result := marked[..];
  }
}
