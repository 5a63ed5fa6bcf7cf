/** Modules on a retained re-export path that are reached without crossing a side-effect boundary. */
module EagerPaths {
  import opened Digraphs
  import opened InitTargets
  import opened InitRouter
  import opened Sets
  import opened Wrappers

  predicate CrossesWithEffects(c: Context, retained: set<RecordKey>, m: nat, r: nat)
    requires m < |c.modules| && c.modules[m].Normal? && r < |c.modules[m].records|
  {
    var rec := c.modules[m].records[r];
    && rec.isImport && (m, r) in retained && rec.importee.Some?
    && c.modules[m].hasSideEffects
    && rec.importee.value < |c.modules| && c.modules[rec.importee.value].hasSideEffects
  }

  function EffectfulFrom(c: Context, retained: set<RecordKey>, m: nat, r: nat): (s: seq<nat>)
    requires m < |c.modules| && c.modules[m].Normal? && r <= |c.modules[m].records|
    ensures forall x :: x in s <==>
      exists i | r <= i < |c.modules[m].records| ::
          CrossesWithEffects(c, retained, m, i) && c.modules[m].records[i].importee == Some(x)
    decreases |c.modules[m].records| - r
  {
    if r == |c.modules[m].records| then []
    else (if CrossesWithEffects(c, retained, m, r) then [c.modules[m].records[r].importee.value] else [])
         + EffectfulFrom(c, retained, m, r + 1)
  }

  /** The hops that keep side effects, as a graph. */
  function EffectGraph(c: Context, retained: set<RecordKey>): Digraph {
    Digraph(seq(|c.modules|, m requires 0 <= m < |c.modules| =>
                  if c.modules[m].Normal? then EffectfulFrom(c, retained, m, 0) else []))
  }

  ghost predicate Growing(c: Context, retained: set<RecordKey>, root: nat, eager: set<nat>, stack: seq<nat>) {
    && root in eager
    && (forall m | m in eager :: m < |c.modules| && EffectGraph(c, retained).Reaches(root, m))
    && (forall m | m in stack :: m in eager)
    && (forall m {:trigger Closed(c, retained, eager, m)} | m in eager && m !in stack :: Closed(c, retained, eager, m))
  }

  ghost predicate Closed(c: Context, retained: set<RecordKey>, eager: set<nat>, m: nat) {
    forall w | EffectGraph(c, retained).Edge(m, w) :: w in eager
  }

  /** Between two records of `m`: everything is as in `Growing`, except that only the first `r`
      records of `m` have been looked at. */
  ghost predicate Scanning(c: Context, retained: set<RecordKey>, root: nat, eager: set<nat>, stack: seq<nat>, m: nat,
      r: nat)
  {
    && m < |c.modules| && c.modules[m].Normal? && r <= |c.modules[m].records|
    && root in eager && m in eager
    && (forall x | x in eager :: x < |c.modules| && EffectGraph(c, retained).Reaches(root, x))
    && (forall x | x in stack :: x in eager)
    && (forall x {:trigger Closed(c, retained, eager, x)} | x in eager && x !in stack && x != m ::
        Closed(c, retained, eager, x))
    && (forall i | 0 <= i < r && CrossesWithEffects(c, retained, m, i) ::
        c.modules[m].records[i].importee.value in eager)
  }

  lemma ScanAdds(c: Context, retained: set<RecordKey>, root: nat, eager: set<nat>, stack: seq<nat>, m: nat, r: nat)
    requires Scanning(c, retained, root, eager, stack, m, r) && r < |c.modules[m].records|
    requires CrossesWithEffects(c, retained, m, r)
    ensures var importee := c.modules[m].records[r].importee.value;
      Scanning(c, retained, root, eager + {importee}, if importee in eager then stack else stack + [importee], m, r + 1)
  {
    var importee := c.modules[m].records[r].importee.value;
    var g := EffectGraph(c, retained);
    assert importee in EffectfulFrom(c, retained, m, 0);
    assert g.Edge(m, importee);
    ReachesStep(g, root, m, importee);
    var eager', stack' := eager + {importee}, if importee in eager then stack else stack + [importee];
    assert forall x | x in stack :: x in stack';
    assert importee !in eager ==> importee in stack';
    forall x | x in eager' && x !in stack' && x != m ensures Closed(c, retained, eager', x) {
      assert Closed(c, retained, eager, x);
    }
  }

  lemma ScanDone(c: Context, retained: set<RecordKey>, root: nat, eager: set<nat>, stack: seq<nat>, m: nat)
    requires m < |c.modules| && c.modules[m].Normal?
    requires Scanning(c, retained, root, eager, stack, m, |c.modules[m].records|)
    ensures Growing(c, retained, root, eager, stack)
  {
    assert Closed(c, retained, eager, m) by {
      forall w | EffectGraph(c, retained).Edge(m, w) ensures w in eager {
        assert w in EffectfulFrom(c, retained, m, 0);
      }
    }
  }

  lemma ScanStarts(c: Context, retained: set<RecordKey>, root: nat, eager: set<nat>, stack: seq<nat>, m: nat)
    requires Growing(c, retained, root, eager, stack + [m]) && m < |c.modules|
    ensures c.modules[m].Normal? ==> Scanning(c, retained, root, eager, stack, m, 0)
    ensures c.modules[m].External? || !c.modules[m].hasSideEffects ==> Growing(c, retained, root, eager, stack)
  {
    assert m in stack + [m];
    assert forall x | x in stack :: x in stack + [m];
    forall x | x in eager && x !in stack && x != m ensures Closed(c, retained, eager, x) {
      assert x !in stack + [m];
    }
    if c.modules[m].External? || !c.modules[m].hasSideEffects {
      assert Closed(c, retained, eager, m);
    }
  }

  /** A static import that the retained path goes over. */
  ghost predicate Retains(c: Context, retained: set<RecordKey>, m: nat, g: nat) {
    && m < |c.modules| && c.modules[m].Normal?
    && exists r: nat ::
         r < |c.modules[m].records| && (m, r) in retained && c.modules[m].records[r] == Record(true, Some(g))
  }

  predicate HasEffects(c: Context, m: nat) {
    m < |c.modules| && c.modules[m].hasSideEffects
  }

  /** A path of retained imports. Unless it is the root alone, every module on it has side effects. */
  ghost predicate IsEffectfulPath(c: Context, retained: set<RecordKey>, path: seq<nat>) {
    && path != [] && path[0] < |c.modules|
    && (forall i {:trigger Retains(c, retained, path[i], path[i + 1])} | 0 <= i < |path| - 1 ::
          Retains(c, retained, path[i], path[i + 1]))
    && (|path| > 1 ==> forall m | m in path :: HasEffects(c, m))
  }

  ghost predicate IsEager(c: Context, retained: set<RecordKey>, root: nat, m: nat) {
    exists path :: IsEffectfulPath(c, retained, path) && path[0] == root && path[|path| - 1] == m
  }

  lemma EdgeIff(c: Context, retained: set<RecordKey>, m: nat, g: nat)
    requires c.Valid()
    ensures EffectGraph(c, retained).Edge(m, g) <==>
            Retains(c, retained, m, g) && HasEffects(c, m) && HasEffects(c, g)
  {
    if m < |c.modules| && c.modules[m].Normal? {
      assert g in EffectfulFrom(c, retained, m, 0) <==> exists i | 0 <= i < |c.modules[m].records| ::
          CrossesWithEffects(c, retained, m, i) && c.modules[m].records[i].importee == Some(g);
    }
  }

  lemma PathIff(c: Context, retained: set<RecordKey>, path: seq<nat>)
    requires c.Valid()
    ensures EffectGraph(c, retained).Path(path) <==> IsEffectfulPath(c, retained, path)
  {
    if EffectGraph(c, retained).Path(path) {
      PathHasEffects(c, retained, path);
    }
    if IsEffectfulPath(c, retained, path) {
      forall i | 0 <= i < |path| - 1 ensures EffectGraph(c, retained).Edge(path[i], path[i + 1]) {
        assert path[i] in path && path[i + 1] in path && Retains(c, retained, path[i], path[i + 1]);
        EdgeIff(c, retained, path[i], path[i + 1]);
      }
    }
  }

  lemma PathHasEffects(c: Context, retained: set<RecordKey>, path: seq<nat>)
    requires c.Valid() && EffectGraph(c, retained).Path(path)
    ensures IsEffectfulPath(c, retained, path)
  {
    forall i {:trigger Retains(c, retained, path[i], path[i + 1])} | 0 <= i < |path| - 1
      ensures Retains(c, retained, path[i], path[i + 1]) && HasEffects(c, path[i]) && HasEffects(c, path[i + 1])
    {
      assert EffectGraph(c, retained).Edge(path[i], path[i + 1]);
      EdgeIff(c, retained, path[i], path[i + 1]);
    }
    if |path| > 1 {
      forall m | m in path ensures HasEffects(c, m) {
        var i :| 0 <= i < |path| && path[i] == m;
        assert if i > 0 then Retains(c, retained, path[i - 1], path[i - 1 + 1])
               else Retains(c, retained, path[0], path[0 + 1]);
      }
    }
  }

  lemma EagerIff(c: Context, retained: set<RecordKey>, root: nat, m: nat)
    requires c.Valid()
    ensures EffectGraph(c, retained).Reaches(root, m) <==> IsEager(c, retained, root, m)
  {
    var graph := EffectGraph(c, retained);
    if graph.Reaches(root, m) {
      var path :| graph.PathBetween(root, m, path);
      PathIff(c, retained, path);
    }
    if IsEager(c, retained, root, m) {
      var path :| IsEffectfulPath(c, retained, path) && path[0] == root && path[|path| - 1] == m;
      PathIff(c, retained, path);
      assert graph.PathBetween(root, m, path);
    }
  }

  /** A module is eager exactly if some path of retained import records from the root reaches it and
      every module on the way has side effects, whatever order the worklist takes. */
  method CollectEagerRetainedPathModules(c: Context, root: nat, retained: set<RecordKey>) returns (eager: set<nat>)
    requires c.Valid() && root < |c.modules|
    ensures forall m :: m in eager <==> IsEager(c, retained, root, m)
  {
    eager := {root};
    var stack := [root];
    ReachesSelf(EffectGraph(c, retained), root);
    while stack != []
      invariant Growing(c, retained, root, eager, stack)
      decreases |Unvisited(|c.modules|, eager)|, |stack|
    {
      ghost var height, before := |stack|, eager;
      var m := stack[|stack| - 1];
      assert stack == stack[..|stack| - 1] + [m] && m in stack;
      stack := stack[..|stack| - 1];
      ScanStarts(c, retained, root, eager, stack, m);
      if c.modules[m].External? || !c.modules[m].hasSideEffects {
        continue;
      }
      for r := 0 to |c.modules[m].records|
        invariant Scanning(c, retained, root, eager, stack, m, r)
        invariant before <= eager && (eager == before ==> |stack| < height)
      {
        if CrossesWithEffects(c, retained, m, r) {
          var importee := c.modules[m].records[r].importee.value;
          ScanAdds(c, retained, root, eager, stack, m, r);
          if importee !in eager {
            stack := stack + [importee];
            eager := eager + {importee};
          } else {
            assert eager + {importee} == eager;
          }
        }
      }
      ScanDone(c, retained, root, eager, stack, m);
      if eager != before {
        var x :| x in eager && x !in before;
        MoreVisited(c, before, eager, x);
      }
    }
    forall v, w | v in eager && EffectGraph(c, retained).Edge(v, w) ensures w in eager {
      assert Closed(c, retained, eager, v);
    }
    ClosedContainsReachable(EffectGraph(c, retained), root, eager);
    forall m: nat ensures m in eager <==> IsEager(c, retained, root, m) {
      EagerIff(c, retained, root, m);
    }
  }

  lemma MoreVisited(c: Context, before: set<nat>, after: set<nat>, x: nat)
    requires before <= after && x in after && x !in before && x < |c.modules|
    ensures |Unvisited(|c.modules|, after)| < |Unvisited(|c.modules|, before)|
  {
    VisitLowers(|c.modules|, before, x);
    MoreVisitedIsLess(|c.modules|, before + {x}, after);
  }

  /** The router with the eager modules of its retained path worked out first. */
  method RouteRetained(c: Context, root: nat, visited0: set<nat>, targets0: seq<Target>)
    returns (targets: seq<Target>, visited: set<nat>)
    requires c.Valid() && root < |c.modules|
    ensures exists eager ::
      && (c.retained.Some? ==> forall m :: m in eager <==> IsEager(c, c.retained.value, root, m))
      && var walk := WalkOf(c.(eagerModules := eager), root);
         targets == targets0 + Walk(walk, [Visit(root)], visited0).0 && visited == Walk(walk, [Visit(root)], visited0).1
  {
    var eager: set<nat> := {};
    if c.retained.Some? {
      eager := CollectEagerRetainedPathModules(c, root, c.retained.value);
    }
    targets, visited := RouteTargets(c.(eagerModules := eager), root, visited0, targets0);
  }
}
