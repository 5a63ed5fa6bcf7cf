/** The excluded-hop router: an explicit stack with reversed pushes and deferred targets. */
module InitRouter {
  import opened InitTargets
  import opened Wrappers
  import opened Sets

  datatype Item = Visit(index: nat) | Emit(target: Target)

  datatype Record = Record(isImport: bool, importee: Option<nat>)

  datatype Carrier = Carrier(eager: bool)

  /** One row of the module table; `exportsEsm` is true for the kinds `Esm` and `None`. */
  datatype Module =
    | External(hasSideEffects: bool)
    | Normal(records: seq<Record>, exportsEsm: bool, isIncluded: bool, hasSideEffects: bool)

  type RecordKey = (nat, nat)

  /** The module table, the order-wrap state's answers and the caller's predicates. */
  datatype Context = Context(
    modules: seq<Module>,
    transparent: set<nat>,
    localRoutes: set<nat>,
    localRecords: set<RecordKey>,
    carriers: map<RecordKey, Carrier>,
    reachable: set<Target>,
    ownsInit: set<nat>,
    retained: Option<set<RecordKey>>,
    eagerModules: set<nat>,
    liveCarriersOnly: bool)
  {
    ghost predicate Valid() {
      forall m, r | 0 <= m < |modules| && modules[m].Normal? && 0 <= r < |modules[m].records| ::
        modules[m].records[r].importee.Some? ==> modules[m].records[r].importee.value < |modules|
    }

    predicate RoutesRetainedRecords(m: nat)
      requires m < |modules| && modules[m].Normal?
    {
      retained.Some? &&
      exists r | 0 <= r < |modules[m].records| :: (m, r) in retained.value && (m, r) in localRecords
    }

    predicate OwnsNonRoutedInit(m: nat)
      requires m < |modules| && modules[m].Normal?
    {
      && modules[m].isIncluded
      && ModuleInit(m) in reachable
      && !((retained.Some? && m in transparent) || m in localRoutes)
    }

    /** The walk does not descend into a module that initializes itself or is not ESM. */
    predicate StopsAt(m: nat)
      requires m < |modules| && modules[m].Normal?
    {
      || (!RoutesRetainedRecords(m) && retained.None? && modules[m].isIncluded && m in ownsInit)
      || !modules[m].exportsEsm
    }

    /** A record of a consumer-local route: its live eager carrier, or the next route, as long as
        every hop has side effects. */
    function RouteRecordItems(m: nat, r: nat): (items: seq<Item>)
      requires m < |modules| && modules[m].Normal? && r < |modules[m].records|
      ensures |items| <= 1
      ensures forall i | i in items && i.Emit? :: i.target == CjsCarrier(m, r)
    {
      var importee := modules[m].records[r].importee;
      if (m, r) in carriers then
        if carriers[(m, r)].eager && CjsCarrier(m, r) in reachable then [Emit(CjsCarrier(m, r))] else []
      else if importee.Some? && importee.value in localRoutes && modules[m].hasSideEffects
           && importee.value < |modules| && modules[importee.value].hasSideEffects then [Visit(importee.value)]
      else []
    }

    /** What one import record contributes to the walk: at most one item. */
    function RecordItems(m: nat, r: nat): (items: seq<Item>)
      requires m < |modules| && modules[m].Normal? && r < |modules[m].records|
      ensures |items| <= 1
      ensures forall i | i in items && i.Emit? :: i.target == CjsCarrier(m, r)
    {
      var key := (m, r);
      var carrier := CjsCarrier(m, r);
      if liveCarriersOnly then RouteRecordItems(m, r)
      else if OwnsNonRoutedInit(m) && RoutesRetainedRecords(m) && key !in localRecords then []
      else if retained.Some? && key !in retained.value then
        if m in eagerModules && key in carriers && carriers[key].eager
            && carrier in reachable then [Emit(carrier)] else []
      else if modules[m].records[r].isImport && modules[m].records[r].importee.Some? then
        if key in carriers then if carrier in reachable then [Emit(carrier)] else []
        else [Visit(modules[m].records[r].importee.value)]
      else []
    }

    /** The items of the records from `r` on, in source order. */
    function ItemsFrom(m: nat, r: nat): seq<Item>
      requires m < |modules| && modules[m].Normal? && r <= |modules[m].records|
      decreases |modules[m].records| - r
    {
      if r == |modules[m].records| then [] else RecordItems(m, r) + ItemsFrom(m, r + 1)
    }

    /** The visit of `m` is a first one. Only the carrier search remembers external modules as well. */
    predicate Opens(m: nat, visited: set<nat>)
      requires m < |modules|
    {
      m !in visited && (modules[m].Normal? || liveCarriersOnly)
    }

    /** Everything a first visit of `m` leads to, in source order: its routed records, then itself. */
    function Children(m: nat): seq<Item>
      requires m < |modules|
    {
      if modules[m].External? then []
      else if liveCarriersOnly then ItemsFrom(m, 0)
      else
        var own := if OwnsNonRoutedInit(m) then [Emit(ModuleInit(m))] else [];
        if OwnsNonRoutedInit(m) && !RoutesRetainedRecords(m) then own
        else (if StopsAt(m) then [] else ItemsFrom(m, 0)) + own
    }
  }

  // ---- The recursive walk -----------------------------------------------------------------

  /** Depth first, in source order, with a visited set shared by all siblings. */
  function Walk(c: Context, items: seq<Item>, visited: set<nat>): (r: (seq<Target>, set<nat>))
    requires c.Valid() && forall i | i in items && i.Visit? :: i.index < |c.modules|
    ensures visited <= r.1
    decreases |Unvisited(|c.modules|, visited)|, |items|
  {
    if items == [] then ([], visited)
    else
      match items[0]
      case Emit(t) =>
        var rest := Walk(c, items[1..], visited);
        ([t] + rest.0, rest.1)
      case Visit(m) =>
        assert items[0] in items;
        if !c.Opens(m, visited) then Walk(c, items[1..], visited)
        else
          ChildrenAreModules(c, m);
          VisitLowers(|c.modules|, visited, m);
          var below := Walk(c, c.Children(m), visited + {m});
          MoreVisitedIsLess(|c.modules|, visited, below.1);
          var rest := Walk(c, items[1..], below.1);
          (below.0 + rest.0, rest.1)
  }

  lemma {:induction false} ItemsAreModules(c: Context, m: nat, r: nat)
    requires c.Valid() && m < |c.modules| && c.modules[m].Normal? && r <= |c.modules[m].records|
    ensures forall i | i in c.ItemsFrom(m, r) && i.Visit? :: i.index < |c.modules|
    decreases |c.modules[m].records| - r
  {
    if r < |c.modules[m].records| {
      ItemsAreModules(c, m, r + 1);
    }
  }

  lemma ChildrenAreModules(c: Context, m: nat)
    requires c.Valid() && m < |c.modules|
    ensures forall i | i in c.Children(m) && i.Visit? :: i.index < |c.modules|
  {
    if c.modules[m].Normal? {
      ItemsAreModules(c, m, 0);
    }
  }

  predicate InRange(c: Context, items: seq<Item>) {
    forall i | i in items && i.Visit? :: i.index < |c.modules|
  }

  predicate IsFresh(c: Context, item: Item, visited: set<nat>) {
    item.Visit? && item.index < |c.modules| && c.Opens(item.index, visited)
  }

  /** The walk of a list whose first item is a module to visit. */
  lemma WalkFresh(c: Context, m: nat, rest: seq<Item>, visited: set<nat>)
    requires c.Valid() && InRange(c, [Visit(m)] + rest) && InRange(c, rest) && IsFresh(c, Visit(m), visited)
    ensures InRange(c, c.Children(m))
    ensures var below := Walk(c, c.Children(m), visited + {m});
      && |Unvisited(|c.modules|, below.1)| < |Unvisited(|c.modules|, visited)|
      && Walk(c, [Visit(m)] + rest, visited) == (below.0 + Walk(c, rest, below.1).0, Walk(c, rest, below.1).1)
  {
    ChildrenAreModules(c, m);
    VisitLowers(|c.modules|, visited, m);
    MoreVisitedIsLess(|c.modules|, visited + {m}, Walk(c, c.Children(m), visited + {m}).1);
    assert ([Visit(m)] + rest)[1..] == rest;
  }

  /** The walk of a list whose first item opens nothing. */
  lemma WalkOther(c: Context, item: Item, rest: seq<Item>, visited: set<nat>)
    requires c.Valid() && InRange(c, [item] + rest) && InRange(c, rest) && (item.Visit? ==> item.index < |c.modules|)
    requires !IsFresh(c, item, visited)
    ensures var after := Walk(c, rest, visited);
      Walk(c, [item] + rest, visited) == (if item.Emit? then ([item.target] + after.0, after.1) else after)
  {
    assert ([item] + rest)[1..] == rest;
  }

  lemma Associate<T>(a: seq<T>, b: seq<T>, c: seq<T>)
    ensures (a + b) + c == a + (b + c)
  {
  }

  /** Walking a list piece by piece. */
  lemma {:induction false} WalkAppend(c: Context, a: seq<Item>, b: seq<Item>, visited: set<nat>)
    requires c.Valid() && InRange(c, a) && InRange(c, b)
    ensures InRange(c, a + b)
    ensures Walk(c, a + b, visited) ==
            (Walk(c, a, visited).0 + Walk(c, b, Walk(c, a, visited).1).0, Walk(c, b, Walk(c, a, visited).1).1)
    decreases |Unvisited(|c.modules|, visited)|, |a|
  {
    if a == [] {
      assert a + b == b;
      assert [] + Walk(c, b, visited).0 == Walk(c, b, visited).0;
    } else {
      var first, rest := a[0], a[1..];
      assert a == [first] + rest && a + b == [first] + (rest + b);
      assert InRange(c, rest) && (first.Visit? ==> first.index < |c.modules|);
      if IsFresh(c, first, visited) {
        var m := first.index;
        WalkFresh(c, m, rest, visited);
        var below := Walk(c, c.Children(m), visited + {m});
        WalkAppend(c, rest, b, below.1);
        WalkFresh(c, m, rest + b, visited);
        var mid := Walk(c, rest, below.1);
        Associate(below.0, mid.0, Walk(c, b, mid.1).0);
      } else {
        WalkAppend(c, rest, b, visited);
        WalkOther(c, first, rest, visited);
        WalkOther(c, first, rest + b, visited);
        var mid := Walk(c, rest, visited);
        if first.Emit? {
          Associate([first.target], mid.0, Walk(c, b, mid.1).0);
        }
      }
    }
  }

  // ---- The explicit stack -----------------------------------------------------------------

  function Reversed(s: seq<Item>): (r: seq<Item>)
    ensures |r| == |s| && forall x :: x in r <==> x in s
  {
    if s == [] then [] else [s[|s| - 1]] + Reversed(s[..|s| - 1])
  }

  lemma {:induction false} ReversedAppend(a: seq<Item>, b: seq<Item>)
    ensures Reversed(a + b) == Reversed(b) + Reversed(a)
  {
    if b == [] {
      assert a + b == a;
    } else {
      var n := |b| - 1;
      assert (a + b)[..|a + b| - 1] == a + b[..n];
      ReversedAppend(a, b[..n]);
    }
  }

  /** What remains to be done when the stack is popped from its end. */
  ghost function Pending(c: Context, stack: seq<Item>, visited: set<nat>): (seq<Target>, set<nat>)
    requires c.Valid() && InRange(c, stack)
  {
    assert InRange(c, Reversed(stack));
    Walk(c, Reversed(stack), visited)
  }

  lemma PopEmit(c: Context, rest: seq<Item>, t: Target, visited: set<nat>)
    requires c.Valid() && InRange(c, rest + [Emit(t)])
    ensures InRange(c, rest)
    ensures Pending(c, rest + [Emit(t)], visited) == ([t] + Pending(c, rest, visited).0, Pending(c, rest, visited).1)
  {
    ReversedAppend(rest, [Emit(t)]);
    assert Reversed([Emit(t)]) == [Emit(t)];
    assert forall i | i in rest :: i in rest + [Emit(t)];
    assert Reversed(rest + [Emit(t)])[1..] == Reversed(rest);
  }

  lemma PopSkip(c: Context, rest: seq<Item>, m: nat, visited: set<nat>)
    requires c.Valid() && InRange(c, rest + [Visit(m)]) && m < |c.modules|
    requires !c.Opens(m, visited)
    ensures InRange(c, rest)
    ensures Pending(c, rest + [Visit(m)], visited) == Pending(c, rest, visited)
  {
    ReversedAppend(rest, [Visit(m)]);
    assert Reversed([Visit(m)]) == [Visit(m)];
    assert forall i | i in rest :: i in rest + [Visit(m)];
    assert Reversed(rest + [Visit(m)])[1..] == Reversed(rest);
  }

  /** Popping a fresh module and pushing its children in reverse leaves the same work. */
  lemma PopVisit(c: Context, rest: seq<Item>, m: nat, visited: set<nat>)
    requires c.Valid() && InRange(c, rest + [Visit(m)]) && m < |c.modules|
    requires c.Opens(m, visited)
    ensures InRange(c, rest + Reversed(c.Children(m)))
    ensures Pending(c, rest + [Visit(m)], visited) == Pending(c, rest + Reversed(c.Children(m)), visited + {m})
  {
    var children := c.Children(m);
    ChildrenAreModules(c, m);
    ReversedAppend(rest, [Visit(m)]);
    assert Reversed([Visit(m)]) == [Visit(m)];
    assert forall i | i in rest :: i in rest + [Visit(m)];
    assert Reversed(rest + [Visit(m)])[1..] == Reversed(rest);
    ReversedAppend(rest, Reversed(children));
    ReversedTwice(children);
    assert InRange(c, Reversed(rest)) && InRange(c, children);
    WalkAppend(c, children, Reversed(rest), visited + {m});
  }

  lemma {:induction false} ReversedTwice(s: seq<Item>)
    ensures Reversed(Reversed(s)) == s
  {
    if s != [] {
      var n := |s| - 1;
      ReversedAppend([s[n]], Reversed(s[..n]));
      assert Reversed([s[n]]) == [s[n]];
      ReversedTwice(s[..n]);
    }
  }

  /** The context of the walk that a call with this root performs. */
  function WalkOf(c: Context, root: nat): Context {
    c.(liveCarriersOnly := c.retained.None? && root in c.localRoutes)
  }

  /** The router. It yields what the recursive walk from `root` yields. */
  method RouteTargets(c: Context, root: nat, visited0: set<nat>, targets0: seq<Target>)
    returns (targets: seq<Target>, visited: set<nat>)
    requires c.Valid() && root < |c.modules|
    ensures var (found, after) := Walk(WalkOf(c, root), [Visit(root)], visited0);
      targets == targets0 + found && visited == after
  {
    if c.retained.None? && root in c.localRoutes {
      // The source recurses here; so does `Walk`.
      var (found, after) := Walk(c.(liveCarriersOnly := true), [Visit(root)], visited0);
      return targets0 + found, after;
    }
    targets, visited := Route(c.(liveCarriersOnly := false), root, visited0, targets0);
  }

  method Route(c: Context, root: nat, visited0: set<nat>, targets0: seq<Target>)
    returns (targets: seq<Target>, visited: set<nat>)
    requires c.Valid() && root < |c.modules| && !c.liveCarriersOnly
    ensures (targets, visited) == (targets0 + Walk(c, [Visit(root)], visited0).0, Walk(c, [Visit(root)], visited0).1)
  {
    targets, visited := targets0, visited0;
    var stack := [Visit(root)];
    assert Reversed(stack) == stack;
    ghost var all := Walk(c, [Visit(root)], visited0);
    while stack != []
      invariant InRange(c, stack)
      invariant targets + Pending(c, stack, visited).0 == targets0 + all.0
      invariant Pending(c, stack, visited).1 == all.1
      decreases |Unvisited(|c.modules|, visited)|, |stack|
    {
      var item := stack[|stack| - 1];
      var rest := stack[..|stack| - 1];
      assert stack == rest + [item];
      match item {
        case Emit(t) =>
          PopEmit(c, rest, t, visited);
          targets := targets + [t];
          stack := rest;
        case Visit(m) =>
          assert item in stack;
          if c.modules[m].External? || m in visited {
            PopSkip(c, rest, m, visited);
            stack := rest;
          } else {
            PopVisit(c, rest, m, visited);
            VisitLowers(|c.modules|, visited, m);
            visited := visited + {m};
            var pushed := PushChildren(c, m);
            stack := rest + pushed;
          }
      }
    }
    assert Reversed(stack) == [] && Pending(c, stack, visited) == ([], visited);
    assert targets + [] == targets;
  }

  lemma ChildrenShape(c: Context, m: nat)
    requires m < |c.modules| && c.modules[m].Normal? && !c.liveCarriersOnly
    ensures var own := if c.OwnsNonRoutedInit(m) then [Emit(ModuleInit(m))] else [];
      && Reversed(own) == own
      && Reversed(c.Children(m)) ==
         if (c.OwnsNonRoutedInit(m) && !c.RoutesRetainedRecords(m)) || c.StopsAt(m) then own
         else own + Reversed(c.ItemsFrom(m, 0))
  {
    var own := if c.OwnsNonRoutedInit(m) then [Emit(ModuleInit(m))] else [];
    assert Reversed(own) == own;
    assert [] + own == own;
    ReversedAppend(c.ItemsFrom(m, 0), own);
  }

  /** The pushes of one visit: the module's own target first, then its records from last to first. */
  method PushChildren(c: Context, m: nat) returns (pushed: seq<Item>)
    requires c.Valid() && m < |c.modules| && c.modules[m].Normal? && !c.liveCarriersOnly
    ensures pushed == Reversed(c.Children(m))
  {
    pushed := [];
    ChildrenShape(c, m);
    if c.OwnsNonRoutedInit(m) {
      pushed := pushed + [Emit(ModuleInit(m))];
      if !c.RoutesRetainedRecords(m) {
        return;
      }
    }
    if c.StopsAt(m) {
      return;
    }
    pushed := PushRecords(c, m, pushed);
  }

  method PushRecords(c: Context, m: nat, own: seq<Item>) returns (pushed: seq<Item>)
    requires m < |c.modules| && c.modules[m].Normal?
    ensures pushed == own + Reversed(c.ItemsFrom(m, 0))
  {
    pushed := own;
    var r: nat := |c.modules[m].records|;
    assert c.ItemsFrom(m, r) == [] && own + Reversed([]) == own;
    while r > 0
      invariant r <= |c.modules[m].records|
      invariant pushed == own + Reversed(c.ItemsFrom(m, r))
    {
      r := r - 1;
      var items := c.RecordItems(m, r);
      ReversedAppend(items, c.ItemsFrom(m, r + 1));
      ReversedSingleton(items);
      pushed := pushed + items;
    }
  }

  lemma ReversedSingleton(s: seq<Item>)
    requires |s| <= 1
    ensures Reversed(s) == s
  {
  }

  // ---- Each target at most once -----------------------------------------------------------

  predicate Distinct(s: seq<Target>) {
    forall i, j | 0 <= i < j < |s| :: s[i] != s[j]
  }

  function Emitted(items: seq<Item>): seq<Target> {
    if items == [] then []
    else if items[0].Emit? then [items[0].target] + Emitted(items[1..])
    else Emitted(items[1..])
  }

  lemma {:induction false} EmittedAppend(a: seq<Item>, b: seq<Item>)
    ensures Emitted(a + b) == Emitted(a) + Emitted(b)
  {
    if a == [] {
      assert a + b == b;
    } else {
      assert (a + b)[1..] == a[1..] + b;
      EmittedAppend(a[1..], b);
    }
  }

  lemma RecordTargets(c: Context, m: nat, r: nat)
    requires m < |c.modules| && c.modules[m].Normal? && r < |c.modules[m].records|
    ensures Emitted(c.RecordItems(m, r)) == [] || Emitted(c.RecordItems(m, r)) == [CjsCarrier(m, r)]
  {
    var items := c.RecordItems(m, r);
    if items != [] {
      assert items[0] in items && items[1..] == [];
    }
  }

  ghost predicate CarriersFrom(s: seq<Target>, m: nat, r: nat) {
    Distinct(s) && forall t | t in s :: t.CjsCarrier? && t.importer == m && t.record >= r
  }

  lemma CarrierInFront(first: seq<Target>, rest: seq<Target>, m: nat, r: nat)
    requires (first == [] || first == [CjsCarrier(m, r)]) && CarriersFrom(rest, m, r + 1)
    ensures CarriersFrom(first + rest, m, r)
  {
    if first != [] {
      var all := first + rest;
      forall i, j | 0 <= i < j < |all| ensures all[i] != all[j] {
        assert all[j] == rest[j - 1] && rest[j - 1] in rest;
        assert i > 0 ==> all[i] == rest[i - 1];
      }
    } else {
      assert first + rest == rest;
    }
  }

  /** A module's own items name distinct targets, all owned by the module. */
  lemma {:induction false} RecordTargetsDistinct(c: Context, m: nat, r: nat)
    requires m < |c.modules| && c.modules[m].Normal? && r <= |c.modules[m].records|
    ensures CarriersFrom(Emitted(c.ItemsFrom(m, r)), m, r)
    decreases |c.modules[m].records| - r
  {
    if r < |c.modules[m].records| {
      RecordTargetsDistinct(c, m, r + 1);
      RecordTargets(c, m, r);
      EmittedAppend(c.RecordItems(m, r), c.ItemsFrom(m, r + 1));
      CarrierInFront(Emitted(c.RecordItems(m, r)), Emitted(c.ItemsFrom(m, r + 1)), m, r);
    }
  }

  lemma ChildTargetsDistinct(c: Context, m: nat)
    requires m < |c.modules|
    ensures Distinct(Emitted(c.Children(m)))
    ensures forall t | t in Emitted(c.Children(m)) :: t.Owner() == m
  {
    if c.modules[m].Normal? {
      RecordTargetsDistinct(c, m, 0);
      var own, records := [Emit(ModuleInit(m))], c.ItemsFrom(m, 0);
      assert own[1..] == [];
      assert Emitted(own) == [ModuleInit(m)];
      EmittedAppend(records, own);
      EmittedAppend([], own);
      assert [] + own == own && records + [] == records;
      var all := Emitted(records) + [ModuleInit(m)];
      assert Distinct(all) by {
        forall i, j | 0 <= i < j < |all| ensures all[i] != all[j] {
          assert all[i] in Emitted(records);
        }
      }
    }
  }

  /** The targets that the modules visited between `before` and `after` contribute. */
  ghost predicate NewlyOwned(c: Context, before: set<nat>, after: set<nat>, t: Target) {
    t.Owner() in after && t.Owner() !in before && t.Owner() < |c.modules| && t in Emitted(c.Children(t.Owner()))
  }

  ghost predicate WalkIs(c: Context, emitted: seq<Target>, visited: set<nat>, r: (seq<Target>, set<nat>)) {
    && Distinct(r.0)
    && (forall t :: t in r.0 <==> t in emitted || NewlyOwned(c, visited, r.1, t))
  }

  lemma JoinWalks(
      c: Context, m: nat, visited: set<nat>, below: (seq<Target>, set<nat>), emitted: seq<Target>,
          rest: (seq<Target>, set<nat>))
    requires m < |c.modules| && m !in visited && visited + {m} <= below.1 <= rest.1
    requires WalkIs(c, Emitted(c.Children(m)), visited + {m}, below)
    requires WalkIs(c, emitted, below.1, rest)
    requires forall t | t in emitted :: t.Owner() in visited
    requires forall t | t in Emitted(c.Children(m)) :: t.Owner() == m
    ensures WalkIs(c, emitted, visited, (below.0 + rest.0, rest.1))
  {
    var all := below.0 + rest.0;
    forall t ensures t in all <==> t in emitted || NewlyOwned(c, visited, rest.1, t) {
      if t in below.0 {
        assert NewlyOwned(c, visited, rest.1, t);
      }
      if NewlyOwned(c, visited, rest.1, t) && t.Owner() !in below.1 {
        assert NewlyOwned(c, below.1, rest.1, t);
      }
      if NewlyOwned(c, visited, rest.1, t) && t.Owner() in below.1 && t.Owner() != m {
        assert NewlyOwned(c, visited + {m}, below.1, t);
      }
    }
    forall t | t in below.0 ensures t !in rest.0 {
      assert t.Owner() in below.1 && t.Owner() !in visited;
    }
    forall i, j | 0 <= i < j < |all| ensures all[i] != all[j] {
      if i < |below.0| <= j {
        assert all[i] in below.0 && all[j] in rest.0;
      }
    }
  }

  /** The walk's targets: the items' own, and those of newly visited modules, each of them once. */
  lemma {:induction false} WalkTargets(c: Context, items: seq<Item>, visited: set<nat>)
    requires c.Valid() && InRange(c, items)
    requires Distinct(Emitted(items)) && forall t | t in Emitted(items) :: t.Owner() in visited
    ensures WalkIs(c, Emitted(items), visited, Walk(c, items, visited))
    decreases |Unvisited(|c.modules|, visited)|, |items|
  {
    if items != [] {
      var rest := items[1..];
      assert InRange(c, rest);
      if items[0].Emit? {
        EmittedTail(items);
        WalkTargets(c, rest, visited);
        EmitFirst(c, items, visited);
      } else if !c.Opens(items[0].index, visited) {
        WalkTargets(c, rest, visited);
      } else {
        var m := items[0].index;
        ChildrenAreModules(c, m);
        ChildTargetsDistinct(c, m);
        VisitLowers(|c.modules|, visited, m);
        WalkTargets(c, c.Children(m), visited + {m});
        var below := Walk(c, c.Children(m), visited + {m});
        MoreVisitedIsLess(|c.modules|, visited, below.1);
        WalkTargets(c, rest, below.1);
        JoinWalks(c, m, visited, below, Emitted(rest), Walk(c, rest, below.1));
      }
    }
  }

  lemma EmitFirst(c: Context, items: seq<Item>, visited: set<nat>)
    requires items != [] && c.Valid() && InRange(c, items) && InRange(c, items[1..])
    requires items[0].Emit? && Distinct(Emitted(items)) && items[0].target.Owner() in visited
    requires items[0].target !in Emitted(items[1..])
    requires WalkIs(c, Emitted(items[1..]), visited, Walk(c, items[1..], visited))
    ensures WalkIs(c, Emitted(items), visited, Walk(c, items, visited))
  {
    var t, rest := items[0].target, Walk(c, items[1..], visited);
    assert t !in rest.0;
    assert Walk(c, items, visited) == ([t] + rest.0, rest.1);
    assert Emitted(items) == [t] + Emitted(items[1..]);
    var all := [t] + rest.0;
    forall i, j | 0 <= i < j < |all| ensures all[i] != all[j] {
      assert all[j] == rest.0[j - 1] && rest.0[j - 1] in rest.0;
    }
  }

  lemma EmittedTail(items: seq<Item>)
    requires items != [] && items[0].Emit? && Distinct(Emitted(items))
    ensures Distinct(Emitted(items[1..])) && items[0].target !in Emitted(items[1..])
  {
    var all, rest := Emitted(items), Emitted(items[1..]);
    assert all == [items[0].target] + rest;
    assert forall i | 0 <= i < |rest| :: rest[i] == all[i + 1] && all[0] != all[i + 1];
  }

  /** One call of the router yields each target at most once: exactly the own targets of the modules
      it visits for the first time. */
  lemma RouteYieldsEachTargetOnce(c: Context, root: nat, visited: set<nat>)
    requires c.Valid() && root < |c.modules|
    ensures var (targets, after) := Walk(c, [Visit(root)], visited);
      && Distinct(targets)
      && (forall t :: t in targets <==> NewlyOwned(c, visited, after, t))
  {
    assert [Visit(root)][1..] == [];
    WalkTargets(c, [Visit(root)], visited);
  }
}
