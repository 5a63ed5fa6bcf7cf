/** Finite directed graphs as successor lists, with paths, reachability and dominance. */
module Digraphs {

  datatype Digraph = Digraph(succs: seq<seq<nat>>)
  {
    ghost predicate Valid() {
      forall v, w | 0 <= v < |succs| && w in succs[v] :: w < |succs|
    }

    predicate Edge(v: nat, w: nat) {
      v < |succs| && w in succs[v]
    }

    /** A non-empty walk along edges. */
    ghost predicate Path(p: seq<nat>) {
      && |p| > 0
      && p[0] < |succs|
      && forall i | 0 <= i < |p| - 1 :: Edge(p[i], p[i + 1])
    }

    ghost predicate PathBetween(v: nat, w: nat, p: seq<nat>) {
      Path(p) && p[0] == v && p[|p| - 1] == w
    }

    ghost predicate Reaches(v: nat, w: nat) {
      exists p :: PathBetween(v, w, p)
    }

    /** Every path from `root` to `v` meets `d`. */
    ghost predicate Dominates(root: nat, d: nat, v: nat) {
      forall p | PathBetween(root, v, p) :: d in p
    }

    /** `v` can be reached from `root` without touching `removed`. */
    ghost predicate ReachesWithout(root: nat, v: nat, removed: nat) {
      exists p :: PathBetween(root, v, p) && removed !in p
    }
  }

  lemma ReachesSelf(g: Digraph, v: nat)
    requires v < |g.succs|
    ensures g.Reaches(v, v)
  {
    assert g.PathBetween(v, v, [v]);
  }

  lemma PathStays(g: Digraph, p: seq<nat>, i: nat)
    requires g.Valid() && g.Path(p) && i < |p|
    ensures p[i] < |g.succs|
  {
    if i > 0 {
      assert g.Edge(p[i - 1], p[i - 1 + 1]);
    }
  }

  lemma PathPrefix(g: Digraph, p: seq<nat>, i: nat)
    requires g.Path(p) && i < |p|
    ensures g.PathBetween(p[0], p[i], p[..i + 1])
  {
    var q := p[..i + 1];
    forall k | 0 <= k < |q| - 1 ensures g.Edge(q[k], q[k + 1]) {
      assert g.Edge(p[k], p[k + 1]);
    }
  }

  lemma PathSuffix(g: Digraph, p: seq<nat>, i: nat)
    requires g.Valid() && g.Path(p) && i < |p|
    ensures g.PathBetween(p[i], p[|p| - 1], p[i..])
  {
    PathStays(g, p, i);
    var q := p[i..];
    forall k | 0 <= k < |q| - 1 ensures g.Edge(q[k], q[k + 1]) {
      assert g.Edge(p[i + k], p[i + k + 1]);
    }
  }

  lemma PathExtend(g: Digraph, v: nat, w: nat, x: nat, p: seq<nat>)
    requires g.PathBetween(v, w, p) && g.Edge(w, x)
    ensures g.PathBetween(v, x, p + [x])
  {
    var q := p + [x];
    forall k | 0 <= k < |q| - 1 ensures g.Edge(q[k], q[k + 1]) {
      if k < |p| - 1 {
        assert g.Edge(p[k], p[k + 1]);
      }
    }
  }

  lemma ReachesStep(g: Digraph, v: nat, w: nat, x: nat)
    requires g.Reaches(v, w) && g.Edge(w, x)
    ensures g.Reaches(v, x)
  {
    var p :| g.PathBetween(v, w, p);
    PathExtend(g, v, w, x, p);
  }

  /** A set that holds `root` and is closed under edges holds everything `root` reaches. */
  lemma ClosedContainsReachable(g: Digraph, root: nat, closed: set<nat>)
    requires root in closed
    requires forall v, w | v in closed && g.Edge(v, w) :: w in closed
    ensures forall v | g.Reaches(root, v) :: v in closed
  {
    forall v | g.Reaches(root, v) ensures v in closed {
      var p :| g.PathBetween(root, v, p);
      ClosedAlongPath(g, p, closed, |p| - 1);
    }
  }

  lemma ClosedAlongPath(g: Digraph, p: seq<nat>, closed: set<nat>, i: nat)
    requires g.Path(p) && p[0] in closed && i < |p|
    requires forall v, w | v in closed && g.Edge(v, w) :: w in closed
    ensures p[i] in closed
  {
    if i > 0 {
      ClosedAlongPath(g, p, closed, i - 1);
      assert g.Edge(p[i - 1], p[i - 1 + 1]);
    }
  }

  /** A dominator is on every path, so a vertex it dominates is exactly one that is lost without it. */
  lemma DominatesIffLostWithout(g: Digraph, root: nat, d: nat, v: nat)
    ensures g.Dominates(root, d, v) <==> !g.ReachesWithout(root, v, d)
  {
  }

  /** A strict dominator of `w` dominates each predecessor of `w`. */
  lemma StrictDominatorOfPredecessor(g: Digraph, root: nat, d: nat, v: nat, w: nat)
    requires g.Dominates(root, d, w) && d != w && g.Edge(v, w)
    ensures g.Dominates(root, d, v)
  {
    forall p | g.PathBetween(root, v, p) ensures d in p {
      PathExtend(g, root, v, w, p);
      assert d in p + [w];
    }
  }
}
