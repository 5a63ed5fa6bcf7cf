/** The explicit-stack depth-first search that lists the reachable vertices in post-order. */
module DepthFirst {
  import opened Digraphs

  /** A stack frame: a vertex and the cursor of its next successor. */
  datatype Frame = Frame(vertex: nat, cursor: nat)

  predicate Distinct<T(==)>(s: seq<T>) {
    forall i, j | 0 <= i < j < |s| :: s[i] != s[j]
  }

  /** What the search delivers: each reachable vertex once, successors before their sources unless
      the edge closes a cycle, and each vertex before one of its predecessors. */
  ghost predicate IsPostOrder(g: Digraph, root: nat, post: seq<nat>) {
    && Distinct(post)
    && (forall v :: v in post <==> g.Reaches(root, v))
    && |post| > 0 && post[|post| - 1] == root
    && (forall i, w | 0 <= i < |post| && g.Edge(post[i], w) :: FinishedFirst(g, post, i, w))
    && (forall i | 0 <= i < |post| - 1 :: HasLaterPredecessor(g, post, i))
  }

  ghost predicate FinishedFirst(g: Digraph, post: seq<nat>, i: nat, w: nat)
    requires i < |post|
  {
    w in post[..i] || g.Reaches(w, post[i])
  }

  ghost predicate HasLaterPredecessor(g: Digraph, post: seq<nat>, i: nat)
    requires i < |post|
  {
    exists j | i < j < |post| :: g.Edge(post[j], post[i])
  }

  // ---- The state of the search between two iterations -------------------------------------

  /** The vertices of the open frames, bottom first. */
  function Open(stack: seq<Frame>): (open: seq<nat>)
    ensures |open| == |stack|
    ensures forall i | 0 <= i < |stack| :: open[i] == stack[i].vertex
  {
    if stack == [] then [] else Open(stack[..|stack| - 1]) + [stack[|stack| - 1].vertex]
  }

  lemma OpenPush(stack: seq<Frame>, frame: Frame)
    ensures Open(stack + [frame]) == Open(stack) + [frame.vertex]
  {
    assert (stack + [frame])[..|stack|] == stack;
  }

  ghost predicate TreePath(g: Digraph, root: nat, open: seq<nat>) {
    && (open != [] ==> open[0] == root)
    && (forall i | 0 < i < |open| :: g.Edge(open[i - 1], open[i]))
    && Distinct(open)
  }

  ghost predicate Scanned(g: Digraph, seen: set<nat>, frame: Frame) {
    && frame.vertex < |g.succs|
    && frame.cursor <= |g.succs[frame.vertex]|
    && forall c | 0 <= c < frame.cursor :: g.succs[frame.vertex][c] in seen
  }

  ghost predicate HasOpenPredecessor(g: Digraph, open: seq<nat>, v: nat) {
    exists k | 0 <= k < |open| :: g.Edge(open[k], v)
  }

  ghost predicate Partition(open: seq<nat>, seen: set<nat>, post: seq<nat>) {
    && Distinct(post)
    && (forall v | v in open :: v !in post)
    && (forall v :: v in seen <==> v in post || v in open)
  }

  ghost predicate Finished(g: Digraph, root: nat, open: seq<nat>, seen: set<nat>, post: seq<nat>, i: nat)
    requires i < |post|
  {
    && (forall w | g.Edge(post[i], w) :: w in seen && FinishedFirst(g, post, i, w))
    && (post[i] == root || HasLaterPredecessor(g, post, i) || HasOpenPredecessor(g, open, post[i]))
  }

  ghost predicate Core(g: Digraph, root: nat, open: seq<nat>, seen: set<nat>, post: seq<nat>) {
    && TreePath(g, root, open)
    && Partition(open, seen, post)
    && (forall v | v in seen :: g.Reaches(root, v))
    && (forall i | 0 <= i < |post| :: Finished(g, root, open, seen, post, i))
    && root in seen
    && (open == [] ==> |post| > 0 && post[|post| - 1] == root)
  }

  /** A vertex lower on the stack reaches every vertex above it. */
  lemma OpenReaches(g: Digraph, root: nat, open: seq<nat>, i: nat, j: nat)
    requires TreePath(g, root, open) && i <= j < |open| && open[i] < |g.succs|
    ensures g.Reaches(open[i], open[j])
    decreases j - i
  {
    if i == j {
      ReachesSelf(g, open[i]);
    } else {
      OpenReaches(g, root, open, i, j - 1);
      ReachesStep(g, open[i], open[j - 1], open[j]);
    }
  }

  lemma PushKeeps(g: Digraph, root: nat, open: seq<nat>, seen: set<nat>, post: seq<nat>, next: nat)
    requires Core(g, root, open, seen, post)
    requires open != [] && g.Edge(open[|open| - 1], next) && next !in seen
    ensures Core(g, root, open + [next], seen + {next}, post)
  {
    var open' := open + [next];
    ReachesStep(g, root, open[|open| - 1], next);
    assert forall k | 0 <= k < |open| :: open[k] in open;
    forall i | 0 <= i < |post| ensures Finished(g, root, open', seen + {next}, post, i) {
      assert Finished(g, root, open, seen, post, i);
      if HasOpenPredecessor(g, open, post[i]) {
        var k :| 0 <= k < |open| && g.Edge(open[k], post[i]);
        assert g.Edge(open'[k], post[i]);
      }
    }
  }

  lemma FinishKeeps(g: Digraph, root: nat, open: seq<nat>, seen: set<nat>, post: seq<nat>, v: nat)
    requires Core(g, root, open + [v], seen, post)
    requires g.Valid() && v < |g.succs|
    requires forall w | w in g.succs[v] :: w in seen
    ensures Core(g, root, open, seen, post + [v])
  {
    var before, after := open + [v], post + [v];
    assert before[|open|] == v;
    assert forall i | 0 <= i < |open| :: open[i] == before[i];
    assert Partition(open, seen, after) by {
      assert forall k | 0 <= k < |post| :: post[k] in post;
      assert v in before;
    }
    forall i | 0 <= i < |after| ensures Finished(g, root, open, seen, after, i) {
      if i < |post| {
        FinishKeepsEarlier(g, root, open, seen, post, v, i);
      } else {
        FinishedLast(g, root, open, seen, post, v);
      }
    }
    if open == [] {
      assert before[0] == root;
    }
  }

  lemma FinishKeepsEarlier(
      g: Digraph, root: nat, open: seq<nat>, seen: set<nat>, post: seq<nat>, v: nat, i: nat)
    requires i < |post| && Finished(g, root, open + [v], seen, post, i)
    ensures Finished(g, root, open, seen, post + [v], i)
  {
    var before, after := open + [v], post + [v];
    assert after[..i] == post[..i];
    if HasLaterPredecessor(g, post, i) {
      var j :| i < j < |post| && g.Edge(post[j], post[i]);
      assert g.Edge(after[j], after[i]);
    } else if HasOpenPredecessor(g, before, post[i]) {
      var k :| 0 <= k < |before| && g.Edge(before[k], post[i]);
      if k < |open| {
        assert g.Edge(open[k], after[i]);
      } else {
        assert g.Edge(after[|post|], after[i]);
      }
    }
    forall w | g.Edge(after[i], w) ensures w in seen && FinishedFirst(g, after, i, w) {
      assert FinishedFirst(g, post, i, w);
    }
  }

  lemma FinishedLast(g: Digraph, root: nat, open: seq<nat>, seen: set<nat>, post: seq<nat>, v: nat)
    requires TreePath(g, root, open + [v]) && Partition(open + [v], seen, post)
    requires g.Valid() && v < |g.succs|
    requires forall w | w in g.succs[v] :: w in seen
    ensures Finished(g, root, open, seen, post + [v], |post|)
  {
    var before, after := open + [v], post + [v];
    assert after[..|post|] == post;
    forall w | g.Edge(v, w) ensures FinishedFirst(g, after, |post|, w) {
      if w !in post {
        var k :| 0 <= k < |before| && before[k] == w;
        OpenReaches(g, root, before, k, |open|);
      }
    }
    if open != [] {
      assert g.Edge(before[|open| - 1], before[|open|]);
      assert g.Edge(open[|open| - 1], v);
    } else {
      assert before[0] == root;
    }
  }

  /** Once the stack is empty the finished vertices are exactly the reachable ones, in post-order. */
  lemma DoneIsPostOrder(g: Digraph, root: nat, seen: set<nat>, post: seq<nat>)
    requires Core(g, root, [], seen, post)
    ensures IsPostOrder(g, root, post)
  {
    forall v, w | v in seen && g.Edge(v, w) ensures w in seen {
      assert v in post;
      var i :| 0 <= i < |post| && post[i] == v;
      assert Finished(g, root, [], seen, post, i);
    }
    ClosedContainsReachable(g, root, seen);
    forall i, w | 0 <= i < |post| && g.Edge(post[i], w) ensures FinishedFirst(g, post, i, w) {
      assert Finished(g, root, [], seen, post, i);
    }
    forall i | 0 <= i < |post| - 1 ensures HasLaterPredecessor(g, post, i) {
      assert post[i] != post[|post| - 1];
      assert Finished(g, root, [], seen, post, i);
    }
  }

  ghost predicate Searching(
      g: Digraph, root: nat, stack: seq<Frame>, seen: set<nat>, post: seq<nat>, visited: seq<bool>)
  {
    && Core(g, root, Open(stack), seen, post)
    && AllScanned(g, seen, stack)
    && |visited| == |g.succs|
    && Marks(visited, seen)
  }

  ghost predicate AllScanned(g: Digraph, seen: set<nat>, stack: seq<Frame>) {
    forall k | 0 <= k < |stack| :: Scanned(g, seen, stack[k])
  }

  ghost predicate Marks(visited: seq<bool>, seen: set<nat>) {
    forall v | 0 <= v < |visited| :: visited[v] <==> v in seen
  }

  lemma ScansAdvance(g: Digraph, seen: set<nat>, rest: seq<Frame>, top: Frame)
    requires AllScanned(g, seen, rest + [top])
    requires top.vertex < |g.succs| && top.cursor < |g.succs[top.vertex]|
    requires g.succs[top.vertex][top.cursor] in seen
    ensures AllScanned(g, seen, rest + [Frame(top.vertex, top.cursor + 1)])
  {
    assert Scanned(g, seen, (rest + [top])[|rest|]);
    forall k | 0 <= k < |rest| ensures Scanned(g, seen, rest[k]) {
      assert rest[k] == (rest + [top])[k];
    }
  }

  lemma ScansPush(g: Digraph, seen: set<nat>, rest: seq<Frame>, top: Frame, next: nat)
    requires AllScanned(g, seen, rest + [top]) && next < |g.succs|
    requires top.vertex < |g.succs| && top.cursor < |g.succs[top.vertex]| && next == g.succs[top.vertex][top.cursor]
    ensures AllScanned(g, seen + {next}, rest + [Frame(top.vertex, top.cursor + 1)] + [Frame(next, 0)])
  {
    var after := rest + [Frame(top.vertex, top.cursor + 1)] + [Frame(next, 0)];
    forall k | 0 <= k < |after| ensures Scanned(g, seen + {next}, after[k]) {
      if k <= |rest| {
        assert Scanned(g, seen, (rest + [top])[k]);
      }
    }
  }

  lemma AdvanceStep(
      g: Digraph, root: nat, rest: seq<Frame>, top: Frame, seen: set<nat>, post: seq<nat>, visited: seq<bool>)
    requires Searching(g, root, rest + [top], seen, post, visited)
    requires top.vertex < |g.succs| && top.cursor < |g.succs[top.vertex]|
    requires g.succs[top.vertex][top.cursor] in seen
    ensures Searching(g, root, rest + [Frame(top.vertex, top.cursor + 1)], seen, post, visited)
  {
    OpenPush(rest, top);
    OpenPush(rest, Frame(top.vertex, top.cursor + 1));
    ScansAdvance(g, seen, rest, top);
  }

  lemma PushStep(
      g: Digraph, root: nat, rest: seq<Frame>, top: Frame, seen: set<nat>, post: seq<nat>, visited: seq<bool>)
    requires g.Valid() && Searching(g, root, rest + [top], seen, post, visited)
    requires top.vertex < |g.succs| && top.cursor < |g.succs[top.vertex]|
    requires g.succs[top.vertex][top.cursor] !in seen && g.succs[top.vertex][top.cursor] < |visited|
    ensures var next := g.succs[top.vertex][top.cursor];
      && Searching(g, root, rest + [Frame(top.vertex, top.cursor + 1)] + [Frame(next, 0)],
                   seen + {next}, post, visited[next := true])
      && Unseen(visited[next := true]) < Unseen(visited)
  {
    var next, moved := g.succs[top.vertex][top.cursor], rest + [Frame(top.vertex, top.cursor + 1)];
    OpenPush(rest, top);
    OpenPush(rest, Frame(top.vertex, top.cursor + 1));
    OpenPush(moved, Frame(next, 0));
    assert g.Edge(top.vertex, next);
    PushKeeps(g, root, Open(moved), seen, post, next);
    UnseenDrops(visited, next);
    ScansPush(g, seen, rest, top, next);
    assert Marks(visited[next := true], seen + {next});
  }

  lemma FinishStep(
      g: Digraph, root: nat, rest: seq<Frame>, top: Frame, seen: set<nat>, post: seq<nat>, visited: seq<bool>)
    requires g.Valid() && Searching(g, root, rest + [top], seen, post, visited)
    requires top.vertex < |g.succs| && top.cursor >= |g.succs[top.vertex]|
    ensures Searching(g, root, rest, seen, post + [top.vertex], visited)
  {
    OpenPush(rest, top);
    assert Scanned(g, seen, (rest + [top])[|rest|]);
    forall w | w in g.succs[top.vertex] ensures w in seen {
      var c :| 0 <= c < |g.succs[top.vertex]| && g.succs[top.vertex][c] == w;
    }
    FinishKeeps(g, root, Open(rest), seen, post, top.vertex);
    forall k | 0 <= k < |rest| ensures Scanned(g, seen, rest[k]) {
      assert rest[k] == (rest + [top])[k];
    }
  }

  method PostOrder(g: Digraph, root: nat) returns (post: seq<nat>)
    requires g.Valid() && root < |g.succs|
    ensures IsPostOrder(g, root, post)
  {
    post := [];
    var visited := new bool[|g.succs|](_ => false);
    var stack := [Frame(root, 0)];
    visited[root] := true;
    ghost var seen := {root};
    ReachesSelf(g, root);
    while stack != []
      invariant Searching(g, root, stack, seen, post, visited[..])
      decreases Unseen(visited[..]), |stack|, Unscanned(g, stack)
    {
      ghost var before := visited[..];
      var rest, top := stack[..|stack| - 1], stack[|stack| - 1];
      assert stack == rest + [top];
      assert Scanned(g, seen, top);
      if top.cursor < |g.succs[top.vertex]| {
        var next := g.succs[top.vertex][top.cursor];
        assert g.Edge(top.vertex, next);
        stack := rest + [Frame(top.vertex, top.cursor + 1)];
        if !visited[next] {
          PushStep(g, root, rest, top, seen, post, before);
          visited[next] := true;
          seen := seen + {next};
          stack := stack + [Frame(next, 0)];
          assert visited[..] == before[next := true];
        } else {
          AdvanceStep(g, root, rest, top, seen, post, before);
        }
      } else {
        FinishStep(g, root, rest, top, seen, post, before);
        stack := rest;
        post := post + [top.vertex];
      }
    }
    DoneIsPostOrder(g, root, seen, post);
  }

  ghost function Unscanned(g: Digraph, stack: seq<Frame>): int {
    if stack == [] || stack[|stack| - 1].vertex >= |g.succs| then 0
    else |g.succs[stack[|stack| - 1].vertex]| - stack[|stack| - 1].cursor
  }

  ghost function Unseen(visited: seq<bool>): nat {
    if visited == [] then 0
    else Unseen(visited[..|visited| - 1]) + (if visited[|visited| - 1] then 0 else 1)
  }

  lemma {:induction false} UnseenDrops(visited: seq<bool>, v: nat)
    requires v < |visited| && !visited[v]
    ensures Unseen(visited[v := true]) == Unseen(visited) - 1
  {
    var n := |visited| - 1;
    if v == n {
      assert visited[v := true][..n] == visited[..n];
    } else {
      UnseenDrops(visited[..n], v);
      assert visited[v := true][..n] == visited[..n][v := true];
    }
  }

  /** An edge that closes no cycle goes forward in reverse post-order. */
  lemma ForwardUnlessCycle(g: Digraph, root: nat, post: seq<nat>, i: nat, j: nat)
    requires IsPostOrder(g, root, post) && i < |post| && j < |post|
    requires g.Edge(post[i], post[j]) && !g.Reaches(post[j], post[i])
    ensures |post| - 1 - i < |post| - 1 - j
  {
    assert FinishedFirst(g, post, i, post[j]);
    var k :| 0 <= k < i && post[k] == post[j];
  }
}
