/** Which modules a call of the router opens, what each of them yields, and in which order. */
module InitRoutes {
  import opened InitRouter
  import opened InitTargets
  import opened Sets
  import opened Wrappers

  // ---- Source order -----------------------------------------------------------------------

  /** `path` gives, module by module, the record that leads on from `m`, and at its end what yields the
      target: the record itself for a carrier, or all of them for the module's own initializer. */
  ghost predicate IsTrail(c: Context, m: nat, path: seq<nat>, t: Target)
    decreases |path|
  {
    && m < |c.modules| && c.modules[m].Normal? && path != []
    && if |path| == 1 then EndsTrail(|c.modules[m].records|, m, path[0], t)
       else path[0] < |c.modules[m].records| && c.modules[m].records[path[0]].importee.Some?
            && IsTrail(c, c.modules[m].records[path[0]].importee.value, path[1..], t)
  }

  predicate EndsTrail(records: nat, m: nat, r: nat, t: Target) {
    (r < records && t == CjsCarrier(m, r)) || (r == records && t == ModuleInit(m))
  }

  /** The first record in which the two trails differ is an earlier one of the same module. */
  ghost predicate Precedes(p: seq<nat>, q: seq<nat>) {
    exists k: nat :: SplitAt(p, q, k)
  }

  predicate SplitAt(p: seq<nat>, q: seq<nat>, k: nat) {
    k < |p| && k < |q| && p[..k] == q[..k] && p[k] < q[k]
  }

  /** All modules on the trail behind its first one are in the set. */
  ghost predicate StaysIn(c: Context, m: nat, path: seq<nat>, s: set<nat>)
    decreases |path|
  {
    |path| > 1 && m < |c.modules| && c.modules[m].Normal? && path[0] < |c.modules[m].records|
        && c.modules[m].records[path[0]].importee.Some? ==>
      c.modules[m].records[path[0]].importee.value in s
      && StaysIn(c, c.modules[m].records[path[0]].importee.value, path[1..], s)
  }

  /** `labels[i]` is the record that `items[i]` comes from, or the number of records for the module's own
      initializer. */
  ghost predicate AreItemsOf(c: Context, m: nat, labels: seq<nat>, items: seq<Item>) {
    && m < |c.modules| && c.modules[m].Normal? && |labels| == |items|
    && (forall i, j | 0 <= i < j < |labels| :: labels[i] < labels[j])
    && forall i {:trigger IsItemOf(c, m, labels[i], items[i])} | 0 <= i < |items| :: IsItemOf(c, m, labels[i], items[i])
  }

  ghost predicate IsItemOf(c: Context, m: nat, r: nat, item: Item) {
    && m < |c.modules| && c.modules[m].Normal?
    && match item
       case Emit(t) => EndsTrail(|c.modules[m].records|, m, r, t)
       case Visit(g) => r < |c.modules[m].records| && c.modules[m].records[r].importee == Some(g)
  }

  ghost function LabelsFrom(c: Context, m: nat, r: nat): seq<nat>
    requires m < |c.modules| && c.modules[m].Normal? && r <= |c.modules[m].records|
    decreases |c.modules[m].records| - r
  {
    if r == |c.modules[m].records| then []
    else (if c.RecordItems(m, r) == [] then [] else [r]) + LabelsFrom(c, m, r + 1)
  }

  lemma RecordItemsOf(c: Context, m: nat, r: nat)
    requires m < |c.modules| && c.modules[m].Normal? && r < |c.modules[m].records|
    ensures forall i | 0 <= i < |c.RecordItems(m, r)| :: IsItemOf(c, m, r, c.RecordItems(m, r)[i])
  {
  }

  lemma ItemInFront(c: Context, m: nat, r: nat, item: Item, labels: seq<nat>, items: seq<Item>)
    requires AreItemsOf(c, m, labels, items) && IsItemOf(c, m, r, item) && forall l | l in labels :: r < l
    ensures AreItemsOf(c, m, [r] + labels, [item] + items)
  {
    var ls, xs := [r] + labels, [item] + items;
    forall i {:trigger IsItemOf(c, m, ls[i], xs[i])} | 0 <= i < |xs| ensures IsItemOf(c, m, ls[i], xs[i]) {
      if i > 0 {
        assert IsItemOf(c, m, labels[i - 1], items[i - 1]);
      }
    }
    forall i, j | 0 <= i < j < |ls| ensures ls[i] < ls[j] {
      assert ls[j] == labels[j - 1] && labels[j - 1] in labels;
    }
  }

  lemma {:induction false} LabelsOfRecords(c: Context, m: nat, r: nat)
    requires m < |c.modules| && c.modules[m].Normal? && r <= |c.modules[m].records|
    ensures AreItemsOf(c, m, LabelsFrom(c, m, r), c.ItemsFrom(m, r))
    ensures forall l | l in LabelsFrom(c, m, r) :: r <= l < |c.modules[m].records|
    decreases |c.modules[m].records| - r
  {
    if r < |c.modules[m].records| {
      LabelsOfRecords(c, m, r + 1);
      RecordItemsOf(c, m, r);
      var items, more := c.RecordItems(m, r), c.ItemsFrom(m, r + 1);
      if items == [] {
        assert items + more == more && [] + LabelsFrom(c, m, r + 1) == LabelsFrom(c, m, r + 1);
      } else {
        assert items == [items[0]];
        ItemInFront(c, m, r, items[0], LabelsFrom(c, m, r + 1), more);
      }
    }
  }

  lemma OwnItemLast(c: Context, m: nat, labels: seq<nat>, items: seq<Item>)
    requires AreItemsOf(c, m, labels, items) && forall l | l in labels :: l < |c.modules[m].records|
    ensures AreItemsOf(c, m, labels + [|c.modules[m].records|], items + [Emit(ModuleInit(m))])
  {
    var ls, xs := labels + [|c.modules[m].records|], items + [Emit(ModuleInit(m))];
    forall i {:trigger IsItemOf(c, m, ls[i], xs[i])} | 0 <= i < |xs| ensures IsItemOf(c, m, ls[i], xs[i]) {
      if i < |items| {
        assert IsItemOf(c, m, labels[i], items[i]);
      }
    }
    forall i, j | 0 <= i < j < |ls| ensures ls[i] < ls[j] {
      assert ls[i] == labels[i] && labels[i] in labels;
    }
  }

  lemma LabelsOfChildren(c: Context, m: nat) returns (labels: seq<nat>)
    requires m < |c.modules| && c.modules[m].Normal?
    ensures AreItemsOf(c, m, labels, c.Children(m))
  {
    var own, all := Emit(ModuleInit(m)), |c.modules[m].records|;
    var records := c.ItemsFrom(m, 0);
    LabelsOfRecords(c, m, 0);
    if c.Children(m) == records {
      return LabelsFrom(c, m, 0);
    }
    OwnItemLast(c, m, LabelsFrom(c, m, 0), records);
    OwnItemLast(c, m, [], []);
    assert [] + [own] == [own] && [] + [all] == [all] && records + [] == records;
    if c.Children(m) == [] {
      labels := [];
    } else if c.Children(m) == [own] {
      labels := [all];
    } else {
      labels := LabelsFrom(c, m, 0) + [all];
    }
  }

  /** The trails of the targets: one each, in strictly ascending order, over modules found on the way. */
  ghost predicate AreTrails(c: Context, m: nat, trails: seq<seq<nat>>, targets: seq<Target>, found: set<nat>) {
    && |trails| == |targets|
    && (forall k {:trigger IsTrail(c, m, trails[k], targets[k])} | 0 <= k < |trails| ::
          IsTrail(c, m, trails[k], targets[k]) && StaysIn(c, m, trails[k], found))
    && forall k, l {:trigger Precedes(trails[k], trails[l])} | 0 <= k < l < |trails| :: Precedes(trails[k], trails[l])
  }

  ghost predicate BeginAt(trails: seq<seq<nat>>, labels: seq<nat>) {
    forall k | 0 <= k < |trails| :: trails[k] != [] && trails[k][0] in labels
  }

  lemma Append(c: Context, m: nat, one: seq<seq<nat>>, a: seq<Target>, s: set<nat>, two: seq<seq<nat>>, b: seq<Target>,
               t: set<nat>, head: nat, labels: seq<nat>)
    requires AreTrails(c, m, one, a, s) && BeginAt(one, [head])
    requires AreTrails(c, m, two, b, t) && BeginAt(two, labels) && forall l | l in labels :: head < l
    ensures AreTrails(c, m, one + two, a + b, s + t) && BeginAt(one + two, [head] + labels)
  {
    var all, targets := one + two, a + b;
    forall k {:trigger IsTrail(c, m, all[k], targets[k])} | 0 <= k < |all|
      ensures IsTrail(c, m, all[k], targets[k]) && StaysIn(c, m, all[k], s + t)
    {
      if k < |one| {
        assert IsTrail(c, m, one[k], a[k]);
        StaysInMore(c, m, one[k], s, s + t);
      } else {
        assert IsTrail(c, m, two[k - |one|], b[k - |one|]);
        StaysInMore(c, m, two[k - |one|], t, s + t);
      }
    }
    forall k, l {:trigger Precedes(all[k], all[l])} | 0 <= k < l < |all| ensures Precedes(all[k], all[l]) {
      if l < |one| {
        assert Precedes(one[k], one[l]);
      } else if k >= |one| {
        assert Precedes(two[k - |one|], two[l - |one|]);
      } else {
        assert one[k][0] == head && two[l - |one|][0] in labels;
        assert SplitAt(all[k], all[l], 0);
      }
    }
  }

  lemma {:induction false} StaysInMore(c: Context, m: nat, path: seq<nat>, s: set<nat>, t: set<nat>)
    requires StaysIn(c, m, path, s) && s <= t
    ensures StaysIn(c, m, path, t)
    decreases |path|
  {
    if |path| > 1 && m < |c.modules| && c.modules[m].Normal? && path[0] < |c.modules[m].records|
        && c.modules[m].records[path[0]].importee.Some?
    {
      StaysInMore(c, c.modules[m].records[path[0]].importee.value, path[1..], s, t);
    }
  }

  ghost function Prefixed(r: nat, trails: seq<seq<nat>>): (p: seq<seq<nat>>)
    ensures |p| == |trails| && forall k | 0 <= k < |p| :: p[k] == [r] + trails[k]
  {
    seq(|trails|, k requires 0 <= k < |trails| => [r] + trails[k])
  }

  lemma PrefixedPrecedes(r: nat, p: seq<nat>, q: seq<nat>)
    requires Precedes(p, q)
    ensures Precedes([r] + p, [r] + q)
  {
    var k: nat :| SplitAt(p, q, k);
    assert ([r] + p)[..k + 1] == [r] + p[..k] && ([r] + q)[..k + 1] == [r] + q[..k];
    assert SplitAt([r] + p, [r] + q, k + 1);
  }

  /** Trails from an importee, seen from the importer. */
  lemma TrailsThrough(c: Context, m: nat, r: nat, g: nat, trails: seq<seq<nat>>, targets: seq<Target>, found: set<nat>)
    requires IsItemOf(c, m, r, Visit(g)) && AreTrails(c, g, trails, targets, found) && g in found
    ensures AreTrails(c, m, Prefixed(r, trails), targets, found) && BeginAt(Prefixed(r, trails), [r])
  {
    var all := Prefixed(r, trails);
    forall k {:trigger IsTrail(c, m, all[k], targets[k])} | 0 <= k < |all|
      ensures IsTrail(c, m, all[k], targets[k]) && StaysIn(c, m, all[k], found)
    {
      assert IsTrail(c, g, trails[k], targets[k]);
      assert all[k][1..] == trails[k];
    }
    forall k, l {:trigger Precedes(all[k], all[l])} | 0 <= k < l < |all| ensures Precedes(all[k], all[l]) {
      assert Precedes(trails[k], trails[l]);
      PrefixedPrecedes(r, trails[k], trails[l]);
    }
  }

  lemma RestOfItems(c: Context, m: nat, labels: seq<nat>, items: seq<Item>)
    requires AreItemsOf(c, m, labels, items) && items != []
    ensures AreItemsOf(c, m, labels[1..], items[1..]) && IsItemOf(c, m, labels[0], items[0])
    ensures forall l | l in labels[1..] :: labels[0] < l
    ensures [labels[0]] + labels[1..] == labels
  {
    assert IsItemOf(c, m, labels[0], items[0]);
    forall i {:trigger IsItemOf(c, m, labels[1..][i], items[1..][i])} | 0 <= i < |items| - 1
      ensures IsItemOf(c, m, labels[1..][i], items[1..][i])
    {
      assert IsItemOf(c, m, labels[i + 1], items[i + 1]);
    }
  }

  lemma NoTrails(c: Context, m: nat, labels: seq<nat>, found: set<nat>)
    ensures AreTrails(c, m, [], [], found) && BeginAt([], labels)
  {
  }

  lemma OneTrail(c: Context, m: nat, r: nat, t: Target)
    requires IsItemOf(c, m, r, Emit(t))
    ensures AreTrails(c, m, [[r]], [t], {}) && BeginAt([[r]], [r])
  {
    var trails, targets := [[r]], [t];
    assert IsTrail(c, m, [r], t) && StaysIn(c, m, [r], {});
    assert forall k {:trigger IsTrail(c, m, trails[k], targets[k])} | 0 <= k < 1 ::
        IsTrail(c, m, trails[k], targets[k]);
  }

  /** The walk of the items of `m` yields their targets along ascending trails. */
  lemma {:induction false} WalkTrails(c: Context, m: nat, labels: seq<nat>, items: seq<Item>, visited: set<nat>)
    returns (trails: seq<seq<nat>>)
    requires c.Valid() && InRange(c, items) && AreItemsOf(c, m, labels, items)
    ensures var (targets, after) := Walk(c, items, visited); AreTrails(c, m, trails, targets, after - visited)
    ensures BeginAt(trails, labels)
    decreases |Unvisited(|c.modules|, visited)|, |items|
  {
    var all := Walk(c, items, visited);
    if items == [] {
      trails := [];
    } else {
      RestOfItems(c, m, labels, items);
      assert items == [items[0]] + items[1..] && InRange(c, items[1..]);
      assert items[0] in items;
      if !IsFresh(c, items[0], visited) {
        var rest := WalkTrails(c, m, labels[1..], items[1..], visited);
        var found := all.1 - visited;
        WalkOther(c, items[0], items[1..], visited);
        if items[0].Emit? {
          OneTrail(c, m, labels[0], items[0].target);
          var after := Walk(c, items[1..], visited).0;
          Append(c, m, [[labels[0]]], [items[0].target], {}, rest, after, found, labels[0], labels[1..]);
          assert {} + found == found;
          trails := [[labels[0]]] + rest;
        } else {
          NoTrails(c, m, [labels[0]], {});
          Append(c, m, [], [], {}, rest, all.0, found, labels[0], labels[1..]);
          assert {} + found == found && [] + rest == rest && [] + all.0 == all.0;
          trails := rest;
        }
      } else {
        var g := items[0].index;
        WalkFresh(c, g, items[1..], visited);
        var below := Walk(c, c.Children(g), visited + {g});
        VisitLowers(|c.modules|, visited, g);
        var first := ChildTrails(c, g, visited);
        var rest := WalkTrails(c, m, labels[1..], items[1..], below.1);
        var one, two, after := below.1 - visited, all.1 - below.1, Walk(c, items[1..], below.1).0;
        TrailsThrough(c, m, labels[0], g, first, below.0, one);
        Append(c, m, Prefixed(labels[0], first), below.0, one, rest, after, two, labels[0], labels[1..]);
        assert one + two == all.1 - visited;
        trails := Prefixed(labels[0], first) + rest;
      }
    }
  }

  lemma {:induction false} ChildTrails(c: Context, g: nat, visited: set<nat>) returns (trails: seq<seq<nat>>)
    requires c.Valid() && g < |c.modules| && InRange(c, c.Children(g)) && g !in visited
    ensures var (targets, after) := Walk(c, c.Children(g), visited + {g});
      AreTrails(c, g, trails, targets, after - visited)
    decreases |Unvisited(|c.modules|, visited + {g})|, |c.Children(g)| + 1
  {
    if c.modules[g].External? {
      NoTrails(c, g, [], Walk(c, [], visited + {g}).1 - visited);
      trails := [];
    } else {
      var labels := LabelsOfChildren(c, g);
      trails := WalkTrails(c, g, labels, c.Children(g), visited + {g});
      var walk := Walk(c, c.Children(g), visited + {g});
      TrailsInMore(c, g, trails, walk.0, walk.1 - (visited + {g}), walk.1 - visited);
    }
  }

  lemma TrailsInMore(c: Context, m: nat, trails: seq<seq<nat>>, targets: seq<Target>, s: set<nat>, t: set<nat>)
    requires AreTrails(c, m, trails, targets, s) && s <= t
    ensures AreTrails(c, m, trails, targets, t)
  {
    forall k {:trigger IsTrail(c, m, trails[k], targets[k])} | 0 <= k < |trails|
      ensures IsTrail(c, m, trails[k], targets[k]) && StaysIn(c, m, trails[k], t)
    {
      assert IsTrail(c, m, trails[k], targets[k]);
      StaysInMore(c, m, trails[k], s, t);
    }
  }

  /** One call yields its targets in source order. Each target lies at the end of a trail of records from the
      root over newly visited modules, and these trails are in ascending order: what comes through an
      earlier record of a module stands before what comes through a later one, and the module's own
      initializer behind everything that comes through its records. */
  lemma RouteFollowsSourceOrder(c: Context, root: nat, visited: set<nat>) returns (trails: seq<seq<nat>>)
    requires c.Valid() && root < |c.modules|
    ensures var (targets, after) := Walk(c, [Visit(root)], visited);
      AreTrails(c, root, trails, targets, after - visited)
  {
    assert [Visit(root)] + [] == [Visit(root)];
    if IsFresh(c, Visit(root), visited) {
      WalkFresh(c, root, [], visited);
      var below := Walk(c, c.Children(root), visited + {root});
      assert below.0 + [] == below.0;
      trails := ChildTrails(c, root, visited);
    } else {
      WalkOther(c, Visit(root), [], visited);
      trails := [];
    }
  }

  // ---- Which targets ----------------------------------------------------------------------

  /** The module is initialized by a live `init_*` of its own, and is no waypoint of the route. */
  predicate HasOwnInit(c: Context, m: nat)
    requires m < |c.modules| && c.modules[m].Normal?
  {
    && c.modules[m].isIncluded && ModuleInit(m) in c.reachable && m !in c.localRoutes
    && (c.retained.Some? ==> m !in c.transparent)
  }

  /** The record is on the retained path, where there is one. */
  predicate IsSelected(c: Context, m: nat, r: nat) {
    c.retained.Some? ==> (m, r) in c.retained.value
  }

  ghost predicate SelectsLocalRecord(c: Context, m: nat)
    requires m < |c.modules| && c.modules[m].Normal?
  {
    c.retained.Some? && exists r: nat :: r < |c.modules[m].records| && (m, r) in c.retained.value * c.localRecords
  }

  /** The walk goes over the record: never beyond ES modules, without a path only in modules that do not
      run in the importer's chunk, and in a module with its own initializer only over local records. */
  ghost predicate GoesOver(c: Context, m: nat, r: nat)
    requires m < |c.modules| && c.modules[m].Normal?
  {
    && c.modules[m].exportsEsm
    && (c.retained.None? && c.modules[m].isIncluded ==> m !in c.ownsInit)
    && (HasOwnInit(c, m) ==> SelectsLocalRecord(c, m) && (m, r) in c.localRecords)
  }

  ghost predicate YieldsCarrier(c: Context, m: nat, r: nat)
    requires m < |c.modules| && c.modules[m].Normal? && r < |c.modules[m].records|
  {
    && (m, r) in c.carriers && CjsCarrier(m, r) in c.reachable
    && if c.liveCarriersOnly then c.carriers[(m, r)].eager
       else GoesOver(c, m, r)
            && if IsSelected(c, m, r) then c.modules[m].records[r].isImport && c.modules[m].records[r].importee.Some?
               else c.carriers[(m, r)].eager && m in c.eagerModules
  }

  /** What the module contributes once it is visited. */
  ghost predicate Yields(c: Context, m: nat, t: Target)
    requires m < |c.modules| && c.modules[m].Normal?
  {
    match t
    case ModuleInit(g) => g == m && !c.liveCarriersOnly && HasOwnInit(c, m)
    case CjsCarrier(g, r) => g == m && r < |c.modules[m].records| && YieldsCarrier(c, m, r)
  }

  ghost predicate LeadsOn(c: Context, m: nat, r: nat, g: nat)
    requires m < |c.modules| && c.modules[m].Normal? && r < |c.modules[m].records|
  {
    && c.modules[m].records[r].importee == Some(g) && (m, r) !in c.carriers
    && if c.liveCarriersOnly then
         g < |c.modules| && g in c.localRoutes && c.modules[m].hasSideEffects && c.modules[g].hasSideEffects
       else GoesOver(c, m, r) && IsSelected(c, m, r) && c.modules[m].records[r].isImport
  }

  ghost predicate Hop(c: Context, m: nat, g: nat) {
    m < |c.modules| && c.modules[m].Normal? && exists r: nat :: r < |c.modules[m].records| && LeadsOn(c, m, r, g)
  }

  lemma {:induction false} ItemsAreRecordItems(c: Context, m: nat, r: nat, item: Item)
    requires m < |c.modules| && c.modules[m].Normal? && r <= |c.modules[m].records|
    ensures item in c.ItemsFrom(m, r) <==>
            exists i: nat :: r <= i < |c.modules[m].records| && item in c.RecordItems(m, i)
    decreases |c.modules[m].records| - r
  {
    if r < |c.modules[m].records| {
      ItemsAreRecordItems(c, m, r + 1, item);
    }
  }

  lemma RoutesIff(c: Context, m: nat)
    requires m < |c.modules| && c.modules[m].Normal?
    ensures c.RoutesRetainedRecords(m) <==> SelectsLocalRecord(c, m)
    ensures c.OwnsNonRoutedInit(m) <==> HasOwnInit(c, m)
  {
    if c.RoutesRetainedRecords(m) {
      var r :| 0 <= r < |c.modules[m].records| && (m, r) in c.retained.value && (m, r) in c.localRecords;
      assert (m, r) in c.retained.value * c.localRecords;
    }
    if SelectsLocalRecord(c, m) {
      var r: nat :| r < |c.modules[m].records| && (m, r) in c.retained.value * c.localRecords;
      assert (m, r) in c.retained.value && (m, r) in c.localRecords;
    }
  }

  /** The walk takes the items of the module's records. */
  ghost predicate TakesRecords(c: Context, m: nat)
    requires m < |c.modules| && c.modules[m].Normal?
  {
    c.liveCarriersOnly || (!c.StopsAt(m) && (c.OwnsNonRoutedInit(m) ==> c.RoutesRetainedRecords(m)))
  }

  lemma RecordYields(c: Context, m: nat, r: nat)
    requires c.Valid() && m < |c.modules| && c.modules[m].Normal? && r < |c.modules[m].records|
    ensures TakesRecords(c, m) && Emit(CjsCarrier(m, r)) in c.RecordItems(m, r) <==> YieldsCarrier(c, m, r)
    ensures forall g :: TakesRecords(c, m) && Visit(g) in c.RecordItems(m, r) <==> LeadsOn(c, m, r, g)
  {
    RoutesIff(c, m);
  }

  lemma ChildrenAreItems(c: Context, m: nat, item: Item)
    requires m < |c.modules| && c.modules[m].Normal?
    ensures item in c.Children(m) <==>
      || (TakesRecords(c, m) && item in c.ItemsFrom(m, 0))
      || (item == Emit(ModuleInit(m)) && !c.liveCarriersOnly && c.OwnsNonRoutedInit(m))
  {
  }

  lemma CarrierOfRecord(c: Context, m: nat, i: nat, t: Target)
    requires m < |c.modules| && c.modules[m].Normal? && i < |c.modules[m].records|
    requires Emit(t) in c.RecordItems(m, i)
    ensures t == CjsCarrier(m, i)
  {
  }

  lemma ChildYields(c: Context, m: nat, t: Target)
    requires c.Valid() && m < |c.modules| && c.modules[m].Normal?
    ensures Emit(t) in c.Children(m) <==> Yields(c, m, t)
  {
    ChildrenAreItems(c, m, Emit(t));
    ItemsAreRecordItems(c, m, 0, Emit(t));
    RoutesIff(c, m);
    if i: nat :| i < |c.modules[m].records| && Emit(t) in c.RecordItems(m, i) {
      CarrierOfRecord(c, m, i, t);
      RecordYields(c, m, i);
    }
    if t.CjsCarrier? && t.importer == m && t.record < |c.modules[m].records| {
      RecordYields(c, m, t.record);
    }
  }

  lemma ChildLeads(c: Context, m: nat, g: nat)
    requires c.Valid() && m < |c.modules| && c.modules[m].Normal?
    ensures Visit(g) in c.Children(m) <==> Hop(c, m, g)
  {
    ChildrenAreItems(c, m, Visit(g));
    ItemsAreRecordItems(c, m, 0, Visit(g));
    forall r: nat | r < |c.modules[m].records|
      ensures TakesRecords(c, m) && Visit(g) in c.RecordItems(m, r) <==> LeadsOn(c, m, r, g)
    {
      RecordYields(c, m, r);
    }
  }

  lemma {:induction false} EmittedIff(items: seq<Item>, t: Target)
    ensures t in Emitted(items) <==> Emit(t) in items
  {
    if items != [] {
      assert items == [items[0]] + items[1..];
      EmittedIff(items[1..], t);
    }
  }

  // ---- Which modules ----------------------------------------------------------------------

  /** Only the search for live carriers visits external modules. */
  predicate MayVisit(c: Context, m: nat) {
    m < |c.modules| && (c.modules[m].Normal? || c.liveCarriersOnly)
  }

  ghost predicate HopPath(c: Context, path: seq<nat>, within: set<nat>) {
    && path != [] && (forall i | 0 <= i < |path| :: path[i] in within)
    && forall i {:trigger HopAt(c, path, i)} | 0 <= i < |path| - 1 :: HopAt(c, path, i)
  }

  ghost predicate HopAt(c: Context, path: seq<nat>, i: nat)
    requires i + 1 < |path|
  {
    Hop(c, path[i], path[i + 1])
  }

  ghost predicate ReachedFrom(c: Context, start: nat, m: nat, within: set<nat>) {
    exists path :: HopPath(c, path, within) && path[0] == start && path[|path| - 1] == m
  }

  /** The walk reaches the new modules, and misses none that they lead to. */
  ghost predicate Explores(c: Context, items: seq<Item>, visited: set<nat>, after: set<nat>) {
    && (forall m | m in after - visited :: MayVisit(c, m))
    && (forall g {:trigger Visit(g)} | Visit(g) in items && MayVisit(c, g) :: g in after)
    && (forall m, g | m in after - visited && Hop(c, m, g) && MayVisit(c, g) :: g in after)
    && (forall m {:trigger ReachedFromItems(c, items, m, after - visited)} | m in after - visited ::
          ReachedFromItems(c, items, m, after - visited))
  }

  ghost predicate ReachedFromItems(c: Context, items: seq<Item>, m: nat, within: set<nat>) {
    exists start :: Visit(start) in items && ReachedFrom(c, start, m, within)
  }

  lemma ReachedMore(c: Context, start: nat, m: nat, s: set<nat>, t: set<nat>)
    requires ReachedFrom(c, start, m, s) && s <= t
    ensures ReachedFrom(c, start, m, t)
  {
    var path :| HopPath(c, path, s) && path[0] == start && path[|path| - 1] == m;
    assert HopPath(c, path, t);
  }

  lemma ReachedItself(c: Context, m: nat, s: set<nat>)
    requires m in s
    ensures ReachedFrom(c, m, m, s)
  {
    assert HopPath(c, [m], s);
  }

  lemma ReachedThrough(c: Context, g: nat, start: nat, m: nat, s: set<nat>)
    requires g in s && Hop(c, g, start) && ReachedFrom(c, start, m, s)
    ensures ReachedFrom(c, g, m, s)
  {
    var path :| HopPath(c, path, s) && path[0] == start && path[|path| - 1] == m;
    var longer := [g] + path;
    forall i {:trigger HopAt(c, longer, i)} | 0 <= i < |longer| - 1 ensures HopAt(c, longer, i) {
      if i > 0 {
        assert HopAt(c, path, i - 1);
      }
    }
    assert HopPath(c, longer, s) && longer[|longer| - 1] == m;
  }

  lemma ReachedBelow(c: Context, g: nat, visited: set<nat>, below: set<nat>, m: nat)
    requires c.Valid() && g < |c.modules| && g !in visited && visited + {g} <= below && m in below - visited
    requires Explores(c, c.Children(g), visited + {g}, below)
    ensures ReachedFrom(c, g, m, below - visited)
  {
    if m == g {
      ReachedItself(c, g, below - visited);
    } else {
      var s := below - (visited + {g});
      assert ReachedFromItems(c, c.Children(g), m, s);
      var start :| Visit(start) in c.Children(g) && ReachedFrom(c, start, m, s);
      ReachedMore(c, start, m, s, below - visited);
      if c.modules[g].Normal? {
        ChildLeads(c, g, start);
        ReachedThrough(c, g, start, m, below - visited);
      }
    }
  }

  lemma ExploresBelow(c: Context, g: nat, visited: set<nat>, below: set<nat>, m: nat, x: nat)
    requires c.Valid() && g < |c.modules| && visited + {g} <= below && m in below - visited
    requires Explores(c, c.Children(g), visited + {g}, below) && Hop(c, m, x) && MayVisit(c, x)
    ensures x in below
  {
    if m == g {
      ChildLeads(c, g, x);
    }
  }

  lemma JoinExplored(c: Context, g: nat, items: seq<Item>, visited: set<nat>, below: set<nat>, after: set<nat>)
    requires c.Valid() && g !in visited && visited + {g} <= below <= after && MayVisit(c, g)
    requires Explores(c, c.Children(g), visited + {g}, below) && Explores(c, items, below, after)
    ensures Explores(c, [Visit(g)] + items, visited, after)
  {
    var all := [Visit(g)] + items;
    assert all[0] == Visit(g);
    forall m, x | m in after - visited && Hop(c, m, x) && MayVisit(c, x) ensures x in after {
      if m in below {
        ExploresBelow(c, g, visited, below, m, x);
      }
    }
    forall m {:trigger ReachedFromItems(c, all, m, after - visited)} | m in after - visited
      ensures ReachedFromItems(c, all, m, after - visited)
    {
      if m in below {
        ReachedBelow(c, g, visited, below, m);
        ReachedMore(c, g, m, below - visited, after - visited);
      } else {
        assert ReachedFromItems(c, items, m, after - below);
        var start :| Visit(start) in items && ReachedFrom(c, start, m, after - below);
        ReachedMore(c, start, m, after - below, after - visited);
        assert Visit(start) in all;
      }
    }
  }

  lemma SkipExplored(c: Context, item: Item, items: seq<Item>, visited: set<nat>, after: set<nat>)
    requires Explores(c, items, visited, after) && visited <= after
    requires item.Visit? && MayVisit(c, item.index) ==> item.index in visited
    ensures Explores(c, [item] + items, visited, after)
  {
    var all := [item] + items;
    forall m {:trigger ReachedFromItems(c, all, m, after - visited)} | m in after - visited
      ensures ReachedFromItems(c, all, m, after - visited)
    {
      assert ReachedFromItems(c, items, m, after - visited);
      var start :| Visit(start) in items && ReachedFrom(c, start, m, after - visited);
      assert Visit(start) in all;
    }
  }

  lemma {:induction false} WalkExplores(c: Context, items: seq<Item>, visited: set<nat>)
    requires c.Valid() && InRange(c, items)
    ensures Explores(c, items, visited, Walk(c, items, visited).1)
    decreases |Unvisited(|c.modules|, visited)|, |items|
  {
    if items != [] {
      assert items == [items[0]] + items[1..] && InRange(c, items[1..]) && items[0] in items;
      if IsFresh(c, items[0], visited) {
        var g := items[0].index;
        WalkFresh(c, g, items[1..], visited);
        var below := Walk(c, c.Children(g), visited + {g}).1;
        VisitLowers(|c.modules|, visited, g);
        WalkExplores(c, c.Children(g), visited + {g});
        WalkExplores(c, items[1..], below);
        JoinExplored(c, g, items[1..], visited, below, Walk(c, items[1..], below).1);
      } else {
        WalkExplores(c, items[1..], visited);
        WalkOther(c, items[0], items[1..], visited);
        SkipExplored(c, items[0], items[1..], visited, Walk(c, items[1..], visited).1);
      }
    }
  }

  /** The outcome of one call, in terms of the module table alone: the newly visited modules are those that
      a path of followed records over new modules reaches from the root, none that they lead to is missed, and each
      target that one of them contributes is yielded once, and nothing else. */
  lemma RouteYieldsIff(c: Context, root: nat, visited: set<nat>)
    requires c.Valid() && root < |c.modules|
    ensures var (targets, after) := Walk(c, [Visit(root)], visited);
      && Distinct(targets)
      && (forall t :: t in targets <==> Contributes(c, after - visited, t))
      && (MayVisit(c, root) ==> root in after)
      && (forall m, g | m in after - visited && Hop(c, m, g) && MayVisit(c, g) :: g in after)
      && (forall m | m in after - visited :: MayVisit(c, m) && ReachedFrom(c, root, m, after - visited))
  {
    var targets, after := Walk(c, [Visit(root)], visited).0, Walk(c, [Visit(root)], visited).1;
    RouteYieldsEachTargetOnce(c, root, visited);
    WalkExplores(c, [Visit(root)], visited);
    assert Visit(root) in [Visit(root)];
    forall t ensures NewlyOwned(c, visited, after, t) <==> Contributes(c, after - visited, t) {
      OwnedIffContributed(c, visited, after, t);
    }
    forall m | m in after - visited ensures ReachedFrom(c, root, m, after - visited) {
      assert ReachedFromItems(c, [Visit(root)], m, after - visited);
    }
  }

  ghost predicate Contributes(c: Context, found: set<nat>, t: Target) {
    && t.Owner() in found && t.Owner() < |c.modules| && c.modules[t.Owner()].Normal?
    && Yields(c, t.Owner(), t)
  }

  lemma OwnedIffContributed(c: Context, visited: set<nat>, after: set<nat>, t: Target)
    requires c.Valid()
    ensures NewlyOwned(c, visited, after, t) <==> Contributes(c, after - visited, t)
  {
    if t.Owner() < |c.modules| {
      EmittedIff(c.Children(t.Owner()), t);
      if c.modules[t.Owner()].Normal? {
        ChildYields(c, t.Owner(), t);
      }
    }
  }

  /** The same for the router as it is called: without a retained path, a route that is local to its consumers is
      searched for live eager carriers, and every other call routes excluded re-exports. */
  lemma RouteOutcome(c: Context, root: nat, visited: set<nat>)
    requires c.Valid() && root < |c.modules|
    ensures var (targets, after) := Walk(WalkOf(c, root), [Visit(root)], visited);
      var mode := c.(liveCarriersOnly := c.retained.None? && root in c.localRoutes);
      && Distinct(targets)
      && (forall t :: t in targets <==> Contributes(mode, after - visited, t))
      && (MayVisit(mode, root) ==> root in after)
      && (forall m, g | m in after - visited && Hop(mode, m, g) && MayVisit(mode, g) :: g in after)
      && (forall m | m in after - visited :: MayVisit(mode, m) && ReachedFrom(mode, root, m, after - visited))
  {
    RouteYieldsIff(WalkOf(c, root), root, visited);
  }
}
