/** A namespace that several forwarders re-export in turn: when a member read at one end is covered at the other. */
module InitNamespaceChains {
  import opened InitCoverage
  import opened InitDelegation
  import opened InitTargets
  import opened Sets
  import opened Wrappers

  const U: Name := Name(1)
  const X: Name := Name(0)
  const LEAF: Symbol := Symbol(0)
  const NAMESPACE: Symbol := Symbol(1)
  const OBJECT: Symbol := Symbol(2)
  const LOCAL: Symbol := Symbol(3)

  function To(f: nat): Record { Record(true, false, Some(f)) }

  /** `import { u } from 1`, and a read of `u.x` that was resolved to the leaf's own symbol. */
  function Consumer(): Module {
    Module(true, [To(1)], map[OBJECT := Import(0, Literal(U))], map[],
           [Statement(true, [0], {Member(OBJECT, Some(X), Read(Some(LEAF)))})],
           map[], {}, map[], false, true, true, false)
  }

  /** An unwrapped module with one re-export, in a statement that is included or not. */
  function Reexporter(next: nat, name: Name, imported: Imported, symbol: Symbol, included: bool): Module {
    Module(true, [To(next)], map[LOCAL := Import(0, imported)], map[name := LOCAL], [Statement(included, [0], {})],
           map[name := symbol], {name}, map[], false, true, true, false)
  }

  function Leaf(): Module {
    Module(true, [], map[], map[X := LEAF], [], map[X := LEAF], {X}, map[], true, false, true, false)
  }

  /** Modules 1 to `k` are `export { u } from` the next one, `k + 1` is `export * as u from k + 2`, and
      `k + 2` is `export { x } from` the leaf. */
  function Link(k: nat, i: nat, included: bool): Module {
    if i <= k then Reexporter(i + 1, U, Literal(U), NAMESPACE, included)
    else if i == k + 1 then Reexporter(i + 1, U, Star, NAMESPACE, included)
    else Reexporter(i + 1, X, Literal(X), LEAF, included)
  }

  /** All unwrapped modules share one chunk. The namespace of an included module leads to nothing. */
  ghost predicate IsNamespaceChain(c: Context, k: nat, kept: seq<bool>) {
    && k >= 1 && |kept| == k + 3 && |c.modules| == k + 4
    && c.modules[0] == Consumer() && c.modules[k + 3] == Leaf()
    && (forall i | 1 <= i <= k + 2 :: c.modules[i] == Link(k, i, kept[i]))
    && c.transparent == {} && c.localRoutes == {} && c.localRecords == {} && c.nested == {} && c.used == {}
    && c.facades == {} && c.inlined == {} && c.routeCarriers == map[] && c.strict
    && c.reachable == {k + 3} && (forall i: nat | i < k + 4 :: i in c.ownsInit)
    && forall m: nat, s :: c.TargetsOf(m, s) == if s == LEAF && m < k + 4 then {ModuleInit(k + 3)} else {}
  }

  /** If the first statement is kept, so are those behind it up to the namespace re-export. */
  predicate KeepsChain(k: nat, kept: seq<bool>)
    requires |kept| == k + 3
  {
    kept[1] ==> forall i | 2 <= i <= k + 1 :: kept[i]
  }

  ghost function Everything(k: nat): set<nat> {
    Indices(k + 4)
  }

  function Depth(k: nat): nat -> nat {
    m => if m < k + 4 then k + 4 - m else 0
  }

  // ---- The modules ------------------------------------------------------------------------

  lemma LinkIsValid(c: Context, k: nat, kept: seq<bool>, i: nat)
    requires IsNamespaceChain(c, k, kept) && 1 <= i <= k + 2
    ensures c.ValidModule(i)
  {
    var m := c.modules[i];
    assert m == Link(k, i, kept[i]);
    assert m.records == [To(i + 1)] && m.statements == [Statement(kept[i], [0], {})];
  }

  lemma EndsAreValid(c: Context, k: nat, kept: seq<bool>)
    requires IsNamespaceChain(c, k, kept)
    ensures c.ValidModule(0) && c.ValidModule(k + 3)
  {
    assert c.modules[0].records == [To(1)];
  }

  lemma ChainIsValid(c: Context, k: nat, kept: seq<bool>)
    requires IsNamespaceChain(c, k, kept)
    ensures c.Valid()
  {
    EndsAreValid(c, k, kept);
    forall i | 0 <= i < |c.modules| ensures c.ValidModule(i) {
      if 1 <= i <= k + 2 {
        LinkIsValid(c, k, kept, i);
      }
    }
  }

  lemma LinkFacts(c: Context, k: nat, kept: seq<bool>, i: nat)
    requires IsNamespaceChain(c, k, kept) && 1 <= i <= k + 2
    ensures c.Valid() && c.IsEagerForwarder(i) && !c.WrapperIsReachable(i)
    ensures forall r :: c.IsRecord(i, r) <==> r == 0
    ensures c.Importee(i, 0) == Some(i + 1)
    ensures c.DischargesOwnHops(i) <==> kept[i]
    ensures forall r :: c.IsObligation(i, r) <==> r == 0 && kept[i]
  {
    ChainIsValid(c, k, kept);
    var m := c.modules[i];
    assert m == Link(k, i, kept[i]);
    assert m.records == [To(i + 1)] && m.statements == [Statement(kept[i], [0], {})];
    assert 0 in m.statements[0].records;
    assert c.Discharges(i, 0, kept[i]) <==> kept[i];
    assert c.Emits(i, 0, kept[i]) <==> kept[i];
  }

  lemma ConsumerFacts(c: Context, k: nat, kept: seq<bool>)
    requires IsNamespaceChain(c, k, kept)
    ensures c.Valid() && !c.WrapperIsReachable(0)
    ensures forall r :: c.IsObligation(0, r) <==> r == 0
    ensures c.IsRecord(0, 0) && c.Importee(0, 0) == Some(1)
  {
    ChainIsValid(c, k, kept);
    assert c.Emits(0, 0, true) && 0 in c.modules[0].statements[0].records;
    forall r | c.IsObligation(0, r) ensures r == 0 {
      assert c.IsRecord(0, r);
    }
  }

  lemma LeafFacts(c: Context, k: nat, kept: seq<bool>)
    requires IsNamespaceChain(c, k, kept)
    ensures c.Valid() && c.WrapperIsReachable(k + 3) && !c.IsEagerForwarder(k + 3)
    ensures c.Obligations(k + 3, 0) == []
  {
    ChainIsValid(c, k, kept);
  }

  // ---- What they demand -------------------------------------------------------------------

  /** A record that demands one symbol has that symbol's targets. */
  lemma OneSymbol(c: Context, m: nat, r: nat, f: nat, s: Symbol)
    requires c.Valid() && c.IsRecord(m, r) && c.Importee(m, r) == Some(f) && c.localRoutes == {}
    requires s in c.DemandedSymbols(m, r, f)
    requires !c.StopsAtWrapper(m, r, f) && !c.OwnsNonRoutedInit(f)
    ensures c.TargetsOf(m, s) <= c.Demand(m, r)
    ensures c.DemandedSymbols(m, r, f) == {s} ==> c.Demand(m, r) == c.TargetsOf(m, s)
  {
    assert c.Demand(m, r) == c.RoutedTargets(m, r, f);
  }

  lemma ConsumerDemands(c: Context, k: nat, kept: seq<bool>)
    requires IsNamespaceChain(c, k, kept)
    ensures c.Valid() && c.IsObligation(0, 0) && ModuleInit(k + 3) in c.Demand(0, 0)
  {
    ConsumerFacts(c, k, kept);
    LinkFacts(c, k, kept, 1);
    var reference := Member(OBJECT, Some(X), Read(Some(LEAF)));
    assert reference in c.modules[0].statements[0].references;
    assert LEAF in c.MemberReads(0, 1, OBJECT);
    assert LEAF in c.BindingSymbols(0, 1, OBJECT);
    assert LEAF in c.DemandedSymbols(0, 0, 1);
    OneSymbol(c, 0, 0, 1, LEAF);
  }

  lemma LinkBinding(c: Context, k: nat, kept: seq<bool>, i: nat)
    requires IsNamespaceChain(c, k, kept) && 1 <= i <= k + 1
    ensures c.Valid() && LOCAL in c.modules[i].imports
    ensures c.WholeBinding(i, i + 1, LOCAL) == {if i <= k then NAMESPACE else LEAF}
  {
    ChainIsValid(c, k, kept);
    var m, next := c.modules[i], c.modules[i + 1];
    assert m == Link(k, i, kept[i]) && next == Link(k, i + 1, kept[i + 1]);
    if i <= k {
      assert next.exports[U] == NAMESPACE;
    } else {
      assert next.visible == {X} && next.exports[X] == LEAF && !c.SkipsName(i + 1, X);
    }
  }

  lemma LinkIsOpaque(c: Context, k: nat, kept: seq<bool>, i: nat)
    requires IsNamespaceChain(c, k, kept) && 1 <= i <= k + 1
    ensures c.modules[i].imports.Keys == {LOCAL} && c.modules[i].imports[LOCAL].record == 0
    ensures c.IsOpaque(i, LOCAL) && !c.modules[i].records[0].isStar
    ensures !c.OwnsNonRoutedInit(i + 1)
  {
    var m := c.modules[i];
    assert m == Link(k, i, kept[i]) && m.records == [To(i + 1)];
    assert m.namedExports[U] == LOCAL && c.ReexportsBinding(i, LOCAL);
    assert !c.RoutesRecords(i + 1);
  }

  /** The binding that a link re-exports has one symbol, which is all its record demands. */
  lemma LinkSymbols(c: Context, k: nat, kept: seq<bool>, i: nat)
    requires IsNamespaceChain(c, k, kept) && 1 <= i <= k + 1
    ensures c.Valid() && c.IsRecord(i, 0)
    ensures c.DemandedSymbols(i, 0, i + 1) == {if i <= k then NAMESPACE else LEAF}
  {
    LinkFacts(c, k, kept, i);
    LinkBinding(c, k, kept, i);
    LinkIsOpaque(c, k, kept, i);
    var s := if i <= k then NAMESPACE else LEAF;
    assert c.BindingSymbols(i, i + 1, LOCAL) == {s};
  }

  lemma LastLinkDemands(c: Context, k: nat, kept: seq<bool>)
    requires IsNamespaceChain(c, k, kept)
    ensures c.Valid() && c.IsRecord(k + 2, 0) && c.Demand(k + 2, 0) == {ModuleInit(k + 3)}
  {
    LinkFacts(c, k, kept, k + 2);
    LeafFacts(c, k, kept);
    assert c.StopsAtWrapper(k + 2, 0, k + 3);
  }

  lemma LinkDemands(c: Context, k: nat, kept: seq<bool>, i: nat)
    requires IsNamespaceChain(c, k, kept) && 1 <= i <= k + 2
    ensures c.Valid() && c.IsRecord(i, 0)
    ensures c.Demand(i, 0) == if i <= k then {} else {ModuleInit(k + 3)}
  {
    if i == k + 2 {
      LastLinkDemands(c, k, kept);
    } else {
      assert c.Valid() && c.IsRecord(i, 0) && c.Importee(i, 0) == Some(i + 1) by {
        LinkFacts(c, k, kept, i);
      }
      assert !c.StopsAtWrapper(i, 0, i + 1) by {
        LinkFacts(c, k, kept, i + 1);
      }
      LinkSymbols(c, k, kept, i);
      assert !c.OwnsNonRoutedInit(i + 1) by {
        LinkIsOpaque(c, k, kept, i);
      }
      OneSymbol(c, i, 0, i + 1, if i <= k then NAMESPACE else LEAF);
    }
  }

  // ---- Where the chain leads --------------------------------------------------------------

  function NameOf(k: nat, i: nat): Name {
    if i <= k + 1 then U else X
  }

  lemma LinkRoute(c: Context, k: nat, kept: seq<bool>, i: nat)
    requires IsNamespaceChain(c, k, kept) && 1 <= i <= k + 2
    ensures c.Valid() && c.ExportRecord(i, NameOf(k, i)) == Some(0) && Source(c, i, NameOf(k, i)) == Some(i + 1)
    ensures RouteIsVisible(c, i, NameOf(k, i)) && forall n :: RouteIsImport(c, i, n)
  {
    LinkFacts(c, k, kept, i);
    var m := c.modules[i];
    assert m == Link(k, i, kept[i]) && m.records == [To(i + 1)];
    assert 0 in m.statements[0].records;
  }

  /** The export is the next module's, or, from `k + 1` on, has the target there. */
  ghost predicate EndOf(c: Context, k: nat, i: nat, t: Target)
    requires c.Valid() && i < |c.modules|
  {
    if i <= k then HandsOn(c, i, U, U) else t in Exposed(c, i, NameOf(k, i))
  }

  lemma NamespaceLink(c: Context, k: nat, kept: seq<bool>)
    requires IsNamespaceChain(c, k, kept)
    ensures c.Valid() && EndOf(c, k, k + 1, ModuleInit(k + 3))
  {
    LinkRoute(c, k, kept, k + 1);
    assert c.modules[k + 1] == Link(k, k + 1, kept[k + 1]) && c.modules[k + 2] == Link(k, k + 2, kept[k + 2]);
    assert ModuleInit(k + 3) in ExportTargets(c, k + 1, k + 2, X);
    assert ModuleInit(k + 3) in SurfaceTargets(c, k + 1, k + 2);
  }

  lemma NextLink(c: Context, k: nat, kept: seq<bool>, i: nat)
    requires IsNamespaceChain(c, k, kept) && 1 <= i <= k
    ensures c.Valid() && EndOf(c, k, i, ModuleInit(k + 3))
  {
    LinkRoute(c, k, kept, i);
    assert c.modules[i] == Link(k, i, kept[i]);
  }

  lemma LastLink(c: Context, k: nat, kept: seq<bool>)
    requires IsNamespaceChain(c, k, kept)
    ensures c.Valid() && EndOf(c, k, k + 2, ModuleInit(k + 3))
  {
    LinkRoute(c, k, kept, k + 2);
  }

  // ---- Any chain that acts like this one --------------------------------------------------

  /** One obligation at most, for the next module. */
  ghost predicate HopAfter(c: Context, i: nat, kept: seq<bool>)
    requires c.Valid() && i < |kept|
  {
    && i + 1 < |c.modules| && c.IsEagerForwarder(i) && c.IsRecord(i, 0) && c.Importee(i, 0) == Some(i + 1)
    && forall r :: c.IsObligation(i, r) <==> r == 0 && kept[i]
  }

  ghost predicate LetsOff(c: Context, i: nat, kept: seq<bool>)
    requires c.Valid() && i < |kept|
  {
    i < |c.modules| && c.IsEagerForwarder(i) && (c.DischargesOwnHops(i) <==> kept[i])
  }

  /** Up to `k` the target is not demanded; the namespace re-export and the last link demand it. */
  ghost predicate AsksFrom(c: Context, k: nat, i: nat, t: Target)
    requires c.Valid()
  {
    c.IsRecord(i, 0) && (t in c.Demand(i, 0) <==> i > k)
  }

  /** The export comes from the next module, over record 0. */
  ghost predicate RouteOf(c: Context, k: nat, i: nat, t: Target)
    requires c.Valid()
  {
    && i + 1 < |c.modules| && c.ExportRecord(i, NameOf(k, i)) == Some(0) && Source(c, i, NameOf(k, i)) == Some(i + 1)
    && RouteIsVisible(c, i, NameOf(k, i)) && RouteIsImport(c, i, NameOf(k, i))
    && EndOf(c, k, i, t)
  }

  ghost predicate Hops(c: Context, k: nat, kept: seq<bool>) {
    && c.Valid() && |kept| == k + 3 && |c.modules| == k + 4
    && (forall r :: c.IsObligation(0, r) <==> r == 0) && c.IsRecord(0, 0) && c.Importee(0, 0) == Some(1)
    && c.Obligations(k + 3, 0) == []
    && forall i {:trigger HopAfter(c, i, kept)} | 1 <= i <= k + 2 :: HopAfter(c, i, kept)
  }

  ghost predicate Gates(c: Context, k: nat, kept: seq<bool>) {
    && c.Valid() && |kept| == k + 3 && |c.modules| == k + 4 && !c.IsEagerForwarder(k + 3)
    && forall i {:trigger LetsOff(c, i, kept)} | 1 <= i <= k + 2 :: LetsOff(c, i, kept)
  }

  ghost predicate Asks(c: Context, k: nat, t: Target) {
    && c.Valid() && c.IsRecord(0, 0) && t in c.Demand(0, 0)
    && forall i {:trigger AsksFrom(c, k, i, t)} | 1 <= i <= k + 2 :: AsksFrom(c, k, i, t)
  }

  ghost predicate Routes(c: Context, k: nat, t: Target) {
    c.Valid() && forall i {:trigger RouteOf(c, k, i, t)} | 1 <= i <= k + 2 :: RouteOf(c, k, i, t)
  }

  /** Every export of an eager forwarder comes through an import, and only the leaf is wrapped. */
  ghost predicate Surroundings(c: Context, k: nat) {
    && c.Valid() && c.strict && TargetsAreWrappers(c) && |c.modules| == k + 4
    && (forall f, n | 0 <= f < k + 4 && c.IsEagerForwarder(f) :: RouteIsImport(c, f, n))
    && forall g: nat | g < k + 3 :: !c.WrapperIsReachable(g)
  }

  ghost predicate ActsAsChain(c: Context, k: nat, kept: seq<bool>) {
    && k >= 1 && Hops(c, k, kept) && Gates(c, k, kept) && Asks(c, k, ModuleInit(k + 3))
    && Routes(c, k, ModuleInit(k + 3)) && Surroundings(c, k)
  }

  // ---- What linking and the conditions say of it ------------------------------------------

  lemma {:induction false} LinkLeads(c: Context, k: nat, i: nat, t: Target)
    requires Routes(c, k, t) && 1 <= i <= k + 1
    ensures RouteOf(c, k, i, t) && Leads(c, i, U, t, k + 1 - i)
    decreases k + 1 - i
  {
    assert RouteOf(c, k, i, t);
    if i <= k {
      LinkLeads(c, k, i + 1, t);
      LeadsFurther(c, i, U, i + 1, U, t, k - i);
    } else {
      LeadsHere(c, i, U, t, 0);
    }
  }

  lemma LastLeads(c: Context, k: nat, t: Target)
    requires Routes(c, k, t)
    ensures RouteOf(c, k, k + 2, t) && Leads(c, k + 2, X, t, 0)
  {
    assert RouteOf(c, k, k + 2, t);
    LeadsHere(c, k + 2, X, t, 0);
  }

  /** A link whose record is an obligation. */
  ghost predicate KeptRoute(c: Context, k: nat, i: nat, t: Target)
    requires c.Valid()
  {
    RouteOf(c, k, i, t) && RouteIsObligation(c, i, NameOf(k, i)) && c.IsEagerForwarder(i)
  }

  lemma RouteIsKept(c: Context, k: nat, kept: seq<bool>, i: nat, t: Target)
    requires Routes(c, k, t) && Hops(c, k, kept) && 1 <= i <= k + 2 && kept[i]
    ensures KeptRoute(c, k, i, t)
  {
    assert RouteOf(c, k, i, t) && HopAfter(c, i, kept);
  }

  ghost predicate CarriedSomehow(c: Context, f: nat, n: Name, t: Target)
    requires c.Valid()
  {
    f < |c.modules| && exists depth: nat :: IsCarried(c, f, n, t, depth)
  }

  lemma LinkCarriesOn(c: Context, k: nat, i: nat, t: Target)
    requires c.Valid() && i <= k && KeptRoute(c, k, i, t) && KeptRoute(c, k, i + 1, t)
    requires CarriedSomehow(c, i + 1, U, t)
    ensures CarriedSomehow(c, i, U, t)
  {
    var depth: nat :| IsCarried(c, i + 1, U, t, depth);
    CarriedFurther(c, i, U, i + 1, U, t, depth);
  }

  lemma LinkCarriesHere(c: Context, k: nat, i: nat, t: Target)
    requires c.Valid() && i > k && KeptRoute(c, k, i, t)
    ensures CarriedSomehow(c, i, NameOf(k, i), t)
  {
    CarriedHere(c, i, NameOf(k, i), t, 0);
  }

  lemma {:induction false} LinkCarries(c: Context, k: nat, i: nat, t: Target)
    requires c.Valid() && 1 <= i <= k + 1
    requires forall j: nat {:trigger KeptRoute(c, k, j, t)} | 1 <= j <= k + 1 :: KeptRoute(c, k, j, t)
    ensures CarriedSomehow(c, i, U, t)
    decreases k + 1 - i
  {
    assert KeptRoute(c, k, i, t);
    if i <= k {
      LinkCarries(c, k, i + 1, t);
      assert KeptRoute(c, k, i + 1, t);
      LinkCarriesOn(c, k, i, t);
    } else {
      LinkCarriesHere(c, k, i, t);
    }
  }

  lemma KeptChainCarries(c: Context, k: nat, kept: seq<bool>, t: Target)
    requires Routes(c, k, t) && Hops(c, k, kept) && KeepsChain(k, kept) && kept[1]
    ensures CarriedSomehow(c, 1, U, t)
  {
    forall j: nat {:trigger KeptRoute(c, k, j, t)} | 1 <= j <= k + 1 ensures KeptRoute(c, k, j, t) {
      RouteIsKept(c, k, kept, j, t);
    }
    LinkCarries(c, k, 1, t);
  }

  lemma LastCarries(c: Context, k: nat, kept: seq<bool>, t: Target)
    requires Routes(c, k, t) && Hops(c, k, kept) && kept[k + 2]
    ensures CarriedSomehow(c, k + 2, X, t)
  {
    RouteIsKept(c, k, kept, k + 2, t);
    LinkCarriesHere(c, k, k + 2, t);
  }

  lemma LinkAsker(c: Context, k: nat, kept: seq<bool>, m: nat, r: nat, t: Target)
    requires c.Valid() && |kept| == k + 3 && 1 <= m <= k + 2 && HopAfter(c, m, kept) && AsksFrom(c, k, m, t)
    requires c.IsObligation(m, r) && t in c.Demand(m, r)
    ensures r == 0 && k + 1 <= m && kept[m] && c.Importee(m, r) == Some(m + 1)
  {
  }

  /** An obligation of the chain that demands the target. */
  lemma Asker(c: Context, k: nat, kept: seq<bool>, m: nat, r: nat, t: Target)
    requires Hops(c, k, kept) && Asks(c, k, t) && m < k + 4 && c.IsObligation(m, r) && t in c.Demand(m, r)
    ensures r == 0 && (m == 0 || (k + 1 <= m <= k + 2 && kept[m])) && c.Importee(m, r) == Some(m + 1)
  {
    if 1 <= m <= k + 2 {
      assert HopAfter(c, m, kept) && AsksFrom(c, k, m, t);
      LinkAsker(c, k, kept, m, r, t);
    }
  }

  lemma LinkedBy(c: Context, m: nat, r: nat, t: Target, f: nat, n: Name, depth: nat)
    requires c.Valid() && m < |c.modules| && c.IsRecord(m, r) && c.Importee(m, r) == Some(f)
    requires Leads(c, f, n, t, depth)
    ensures DemandIsLinked(c, m, r, t)
  {
  }

  lemma CarriedBy(c: Context, m: nat, r: nat, t: Target, f: nat, n: Name)
    requires c.Valid() && m < |c.modules| && c.IsRecord(m, r) && c.Importee(m, r) == Some(f)
    requires CarriedSomehow(c, f, n, t)
    ensures DelegationIsCarried(c, m, r, t)
  {
  }

  lemma DemandLeads(c: Context, k: nat, kept: seq<bool>, m: nat, r: nat, t: Target)
    requires Hops(c, k, kept) && Gates(c, k, kept) && Asks(c, k, t) && Routes(c, k, t) && m < k + 4
    ensures DemandIsLinked(c, m, r, t)
  {
    if c.IsObligation(m, r) && t in c.Demand(m, r) {
      Asker(c, k, kept, m, r, t);
      if m == 0 {
        LinkLeads(c, k, 1, t);
        LinkedBy(c, 0, 0, t, 1, U, k);
      } else if m == k + 1 {
        LastLeads(c, k, t);
        LinkedBy(c, k + 1, 0, t, k + 2, X, 0);
      }
    }
  }

  lemma ChainIsLinked(c: Context, k: nat, kept: seq<bool>)
    requires ActsAsChain(c, k, kept)
    ensures Linked(c, Everything(k), ModuleInit(k + 3))
  {
    var t := ModuleInit(k + 3);
    forall m, r {:trigger DemandIsLinked(c, m, r, t)} | m in Everything(k) ensures DemandIsLinked(c, m, r, t) {
      DemandLeads(c, k, kept, m, r, t);
    }
  }

  lemma LetOffIsCarried(c: Context, k: nat, kept: seq<bool>, m: nat, r: nat, t: Target)
    requires Hops(c, k, kept) && Gates(c, k, kept) && Asks(c, k, t) && Routes(c, k, t)
    requires KeepsChain(k, kept) && m < k + 4
    ensures DelegationIsCarried(c, m, r, t)
  {
    if c.IsObligation(m, r) && t in c.Demand(m, r) && IsLetOff(c, m, r) {
      Asker(c, k, kept, m, r, t);
      LetOffIsKept(c, k, kept, m);
      if m == 0 {
        KeptChainCarries(c, k, kept, t);
        CarriedBy(c, 0, 0, t, 1, U);
      } else {
        assert m == k + 1;
        LastCarries(c, k, kept, t);
        CarriedBy(c, k + 1, 0, t, k + 2, X);
      }
    }
  }

  lemma LetOffIsKept(c: Context, k: nat, kept: seq<bool>, m: nat)
    requires Gates(c, k, kept) && m < k + 3 && c.IsRecord(m, 0) && c.Importee(m, 0) == Some(m + 1)
    ensures IsLetOff(c, m, 0) <==> m < k + 2 && kept[m + 1]
  {
    if m < k + 2 {
      assert LetsOff(c, m + 1, kept);
    }
  }

  lemma KeptIsCarried(c: Context, k: nat, kept: seq<bool>)
    requires ActsAsChain(c, k, kept) && KeepsChain(k, kept)
    ensures DelegationsAreCarried(c, Everything(k), ModuleInit(k + 3))
  {
    var t := ModuleInit(k + 3);
    forall m, r {:trigger DelegationIsCarried(c, m, r, t)} | m in Everything(k)
      ensures DelegationIsCarried(c, m, r, t)
    {
      LetOffIsCarried(c, k, kept, m, r, t);
    }
  }

  // ---- When the leaf is covered -----------------------------------------------------------

  lemma ChainHop(c: Context, k: nat, kept: seq<bool>, m: nat, f: nat)
    requires Hops(c, k, kept) && Gates(c, k, kept) && Hop(c, m, f)
    ensures f == m + 1 && m <= k + 1 && (m > 0 ==> kept[m])
  {
    var r :| c.IsObligation(m, r) && c.Importee(m, r) == Some(f);
    if 1 <= m <= k + 2 {
      assert HopAfter(c, m, kept);
    }
  }

  lemma ChainIsInScope(c: Context, k: nat, kept: seq<bool>)
    requires ActsAsChain(c, k, kept) && DelegationsAreCarried(c, Everything(k), ModuleInit(k + 3))
    ensures InScope(c, Everything(k), Depth(k), ModuleInit(k + 3))
  {
    forall m, f | m in Everything(k) && Hop(c, m, f) ensures f in Everything(k) && Depth(k)(f) < Depth(k)(m) {
      ChainHop(c, k, kept, m, f);
    }
  }

  lemma CarriedChainIsCovered(c: Context, k: nat, kept: seq<bool>)
    requires ActsAsChain(c, k, kept) && DelegationsAreCarried(c, Everything(k), ModuleInit(k + 3))
    ensures IsCovered(c, 0, ModuleInit(k + 3))
  {
    ChainIsInScope(c, k, kept);
    DelegationLosesNothing(c, Everything(k), Depth(k), 0, 0, ModuleInit(k + 3));
  }

  ghost predicate HopsFollow(c: Context, k: nat, kept: seq<bool>)
    requires c.Valid()
  {
    && |kept| == k + 3
    && forall m: nat, f: nat {:trigger Hop(c, m, f)} :: Hop(c, m, f) ==> f == m + 1 && m <= k + 1 && (m > 0 ==> kept[m])
  }

  lemma ChainHopsFollow(c: Context, k: nat, kept: seq<bool>)
    requires Hops(c, k, kept) && Gates(c, k, kept)
    ensures HopsFollow(c, k, kept)
  {
    forall m: nat, f: nat {:trigger Hop(c, m, f)} | Hop(c, m, f)
      ensures f == m + 1 && m <= k + 1 && (m > 0 ==> kept[m])
    {
      ChainHop(c, k, kept, m, f);
    }
  }

  /** The modules of a path from the consumer are those of the chain, and all between kept their hop. */
  lemma {:induction false} PathFollowsChain(c: Context, k: nat, kept: seq<bool>, path: seq<nat>)
    requires c.Valid() && HopsFollow(c, k, kept) && HopPath(c, path) && path[0] == 0
    ensures |path| <= k + 3 && path[|path| - 1] == |path| - 1 && forall i | 1 <= i < |path| - 1 :: kept[i]
    decreases |path|
  {
    if |path| > 1 {
      var front := path[..|path| - 1];
      forall i {:trigger HopAt(c, front, i)} | 0 < i < |front| ensures HopAt(c, front, i) {
        assert HopAt(c, path, i);
      }
      PathFollowsChain(c, k, kept, front);
      assert HopAt(c, path, |path| - 1);
    }
  }

  /** Nothing but the leaf itself is a wrapper in front of it, so that providing it is calling it. */
  lemma ProviderSettles(c: Context, k: nat, e: nat)
    requires Surroundings(c, k) && IsProvided(c, e, ModuleInit(k + 3))
    ensures Settles(c, e, ModuleInit(k + 3))
  {
    EmittedIsSettled(c, e, ModuleInit(k + 3));
  }

  /** The consumer if the first re-export is not kept, or one of the last two links if it keeps its own. */
  predicate IsFarEnough(k: nat, kept: seq<bool>, e: nat)
    requires |kept| == k + 3
  {
    if e == 0 then !kept[1] else k + 1 <= e <= k + 2 && kept[e]
  }

  lemma SettlingRecord(c: Context, k: nat, kept: seq<bool>, e: nat, r: nat, t: Target)
    requires Hops(c, k, kept) && Gates(c, k, kept) && Asks(c, k, t) && e < k + 4
    requires c.IsObligation(e, r) && t in c.Demand(e, r) && !IsLetOff(c, e, r)
    ensures IsFarEnough(k, kept, e)
  {
    Asker(c, k, kept, e, r, t);
    if e == 0 {
      LetOffIsKept(c, k, kept, 0);
    }
  }

  lemma SettlerIsFarEnough(c: Context, k: nat, kept: seq<bool>, e: nat, t: Target)
    requires Hops(c, k, kept) && Gates(c, k, kept) && Asks(c, k, t) && Settles(c, e, t)
    ensures IsFarEnough(k, kept, e)
  {
    var r :| c.IsObligation(e, r) && t in c.Demand(e, r) && !IsLetOff(c, e, r);
    SettlingRecord(c, k, kept, e, r, t);
  }

  lemma ProviderIsFarEnough(c: Context, k: nat, kept: seq<bool>, e: nat)
    requires ActsAsChain(c, k, kept) && IsProvided(c, e, ModuleInit(k + 3))
    ensures IsFarEnough(k, kept, e)
  {
    ProviderSettles(c, k, e);
    SettlerIsFarEnough(c, k, kept, e, ModuleInit(k + 3));
  }

  lemma KeptUpTo(k: nat, kept: seq<bool>, e: nat)
    requires |kept| == k + 3 && e <= k + 2 && IsFarEnough(k, kept, e) && forall i | 1 <= i < e :: kept[i]
    ensures KeepsChain(k, kept)
  {
  }

  lemma ProviderOnPath(c: Context, t: Target) returns (path: seq<nat>)
    requires c.Valid() && IsCovered(c, 0, t)
    ensures HopPath(c, path) && path[0] == 0 && IsProvided(c, path[|path| - 1], t)
  {
    path :| HopPath(c, path) && path[0] == 0 && EndsAtProvider(c, path, t);
  }

  lemma FarPathIsKept(c: Context, k: nat, kept: seq<bool>, path: seq<nat>)
    requires c.Valid() && HopsFollow(c, k, kept) && HopPath(c, path) && path[0] == 0
    requires IsFarEnough(k, kept, path[|path| - 1])
    ensures KeepsChain(k, kept)
  {
    PathFollowsChain(c, k, kept, path);
    KeptUpTo(k, kept, |path| - 1);
  }

  lemma CoveredIsKept(c: Context, k: nat, kept: seq<bool>)
    requires ActsAsChain(c, k, kept) && IsCovered(c, 0, ModuleInit(k + 3))
    ensures KeepsChain(k, kept)
  {
    var path := ProviderOnPath(c, ModuleInit(k + 3));
    ProviderIsFarEnough(c, k, kept, path[|path| - 1]);
    ChainHopsFollow(c, k, kept);
    FarPathIsKept(c, k, kept, path);
  }

  /** Linking is consistent and the consumer demands the leaf, whichever re-exports tree shaking keeps.
      It is covered exactly if the first forwarder does not keep its re-export, so that the consumer
      emits the call itself, or every forwarder up to the namespace re-export keeps its own. That is
      also exactly when the delegations are carried. */
  lemma ChainIsCoveredIff(c: Context, k: nat, kept: seq<bool>)
    requires ActsAsChain(c, k, kept)
    ensures Linked(c, Everything(k), ModuleInit(k + 3))
    ensures c.IsObligation(0, 0) && ModuleInit(k + 3) in c.Demand(0, 0)
    ensures IsCovered(c, 0, ModuleInit(k + 3)) <==> (kept[1] ==> forall i | 2 <= i <= k + 1 :: kept[i])
    ensures DelegationsAreCarried(c, Everything(k), ModuleInit(k + 3)) <==> IsCovered(c, 0, ModuleInit(k + 3))
  {
    ChainIsLinked(c, k, kept);
    if KeepsChain(k, kept) {
      KeptIsCarried(c, k, kept);
    }
    if DelegationsAreCarried(c, Everything(k), ModuleInit(k + 3)) {
      CarriedChainIsCovered(c, k, kept);
    }
    if IsCovered(c, 0, ModuleInit(k + 3)) {
      CoveredIsKept(c, k, kept);
    }
  }

  // ---- When anybody calls it --------------------------------------------------------------

  lemma FirstObligation(c: Context, m: nat)
    requires c.Valid() && m < |c.modules|
    ensures c.modules[m].normal && c.Obligations(m, 0) != [] ==> exists r :: c.IsObligation(m, r)
  {
    if c.modules[m].normal && c.Obligations(m, 0) != [] {
      assert c.IsObligation(m, c.Obligations(m, 0)[0]);
    }
  }

  lemma UnkeptCreditsNothing(c: Context, k: nat, kept: seq<bool>, i: nat)
    requires Hops(c, k, kept) && 1 <= i <= k + 2 && !kept[i]
    ensures Discharged(c, i, {}).0 == {}
  {
    assert HopAfter(c, i, kept);
    FirstObligation(c, i);
  }

  lemma EmittedBeforeUnkept(c: Context, m: nat, f: nat, t: Target)
    requires c.Valid() && c.strict && m < |c.modules| && f < |c.modules|
    requires c.IsObligation(m, 0) && c.Importee(m, 0) == Some(f) && t in c.Demand(m, 0)
    requires c.IsEagerForwarder(f) && !c.DischargesOwnHops(f) && Discharged(c, f, {}).0 == {}
    ensures IsEmitted(c, m, t)
  {
    assert t in Collect(c, m, 0, {}).0;
  }

  lemma UnkeptIsOpen(c: Context, k: nat, kept: seq<bool>, f: nat)
    requires Hops(c, k, kept) && Gates(c, k, kept) && 1 <= f <= k + 2 && !kept[f]
    ensures c.IsEagerForwarder(f) && !c.DischargesOwnHops(f) && Discharged(c, f, {}).0 == {}
  {
    UnkeptCreditsNothing(c, k, kept, f);
    assert LetsOff(c, f, kept);
  }

  lemma ConsumerEmits(c: Context, k: nat, kept: seq<bool>, t: Target)
    requires Hops(c, k, kept) && Gates(c, k, kept) && Asks(c, k, t) && c.strict && !kept[1]
    ensures IsEmitted(c, 0, t)
  {
    UnkeptIsOpen(c, k, kept, 1);
    EmittedBeforeUnkept(c, 0, 1, t);
  }

  lemma NamespaceAsks(c: Context, k: nat, kept: seq<bool>, t: Target)
    requires Hops(c, k, kept) && Asks(c, k, t) && kept[k + 1]
    ensures c.IsObligation(k + 1, 0) && c.Importee(k + 1, 0) == Some(k + 2) && t in c.Demand(k + 1, 0)
  {
    assert HopAfter(c, k + 1, kept) && AsksFrom(c, k, k + 1, t);
  }

  lemma NamespaceEmits(c: Context, k: nat, kept: seq<bool>, t: Target)
    requires Hops(c, k, kept) && Gates(c, k, kept) && Asks(c, k, t) && c.strict && kept[k + 1] && !kept[k + 2]
    ensures IsEmitted(c, k + 1, t)
  {
    UnkeptIsOpen(c, k, kept, k + 2);
    NamespaceAsks(c, k, kept, t);
    EmittedBeforeUnkept(c, k + 1, k + 2, t);
  }

  lemma EmittedByLast(c: Context, k: nat, kept: seq<bool>, t: Target)
    requires Hops(c, k, kept) && Gates(c, k, kept) && Asks(c, k, t) && kept[k + 2]
    ensures IsEmitted(c, k + 2, t)
  {
    assert HopAfter(c, k + 2, kept) && AsksFrom(c, k, k + 2, t);
    NoForwarderNoDelegation(c, k + 2, 0);
  }

  ghost predicate IsDropped(c: Context, t: Target)
    requires c.Valid()
  {
    forall e: nat {:trigger IsEmitted(c, e, t)} :: !IsEmitted(c, e, t)
  }

  lemma EmitterIsFarEnough(c: Context, k: nat, kept: seq<bool>, e: nat, t: Target)
    requires Hops(c, k, kept) && Gates(c, k, kept) && Asks(c, k, t) && c.strict && IsEmitted(c, e, t)
    ensures IsFarEnough(k, kept, e)
  {
    assert Settles(c, e, t) by {
      EmittedIsSettled(c, e, t);
    }
    SettlerIsFarEnough(c, k, kept, e, t);
  }

  lemma NotFarEnough(c: Context, k: nat, kept: seq<bool>, e: nat, t: Target)
    requires Hops(c, k, kept) && Gates(c, k, kept) && Asks(c, k, t) && c.strict && !IsFarEnough(k, kept, e)
    ensures !IsEmitted(c, e, t)
  {
    if IsEmitted(c, e, t) {
      EmitterIsFarEnough(c, k, kept, e, t);
    }
  }

  lemma NobodyIsFarEnough(k: nat, kept: seq<bool>, e: nat)
    requires |kept| == k + 3 && kept[1] && !kept[k + 1] && !kept[k + 2]
    ensures !IsFarEnough(k, kept, e)
  {
  }

  lemma NobodyEmits(c: Context, k: nat, kept: seq<bool>, t: Target)
    requires Hops(c, k, kept) && Gates(c, k, kept) && Asks(c, k, t) && c.strict
    requires kept[1] && !kept[k + 1] && !kept[k + 2]
    ensures IsDropped(c, t)
  {
    forall e: nat {:trigger IsEmitted(c, e, t)} ensures !IsEmitted(c, e, t) {
      NobodyIsFarEnough(k, kept, e);
      NotFarEnough(c, k, kept, e, t);
    }
  }

  /** No module at all calls the leaf exactly if the first re-export is kept and the last two are not. */
  lemma ChainIsDroppedIff(c: Context, k: nat, kept: seq<bool>)
    requires ActsAsChain(c, k, kept)
    ensures IsDropped(c, ModuleInit(k + 3)) <==> kept[1] && !kept[k + 1] && !kept[k + 2]
  {
    var t := ModuleInit(k + 3);
    if !kept[1] {
      ConsumerEmits(c, k, kept, t);
    } else if kept[k + 2] {
      EmittedByLast(c, k, kept, t);
    } else if kept[k + 1] {
      NamespaceEmits(c, k, kept, t);
    } else {
      NobodyEmits(c, k, kept, t);
    }
  }

  // ---- The chain of re-exports is one -----------------------------------------------------

  lemma LinkHops(c: Context, k: nat, kept: seq<bool>)
    requires IsNamespaceChain(c, k, kept)
    ensures Hops(c, k, kept) && Gates(c, k, kept)
  {
    ConsumerFacts(c, k, kept);
    LeafFacts(c, k, kept);
    forall i {:trigger HopAfter(c, i, kept)} | 1 <= i <= k + 2 ensures HopAfter(c, i, kept) {
      LinkFacts(c, k, kept, i);
    }
    forall i {:trigger LetsOff(c, i, kept)} | 1 <= i <= k + 2 ensures LetsOff(c, i, kept) {
      LinkFacts(c, k, kept, i);
    }
  }

  lemma LinkAsks(c: Context, k: nat, kept: seq<bool>)
    requires IsNamespaceChain(c, k, kept)
    ensures Asks(c, k, ModuleInit(k + 3))
  {
    ConsumerDemands(c, k, kept);
    forall i {:trigger AsksFrom(c, k, i, ModuleInit(k + 3))} | 1 <= i <= k + 2
      ensures AsksFrom(c, k, i, ModuleInit(k + 3))
    {
      LinkDemands(c, k, kept, i);
    }
  }

  lemma RouteOfLink(c: Context, k: nat, i: nat, t: Target)
    requires c.Valid() && i + 1 < |c.modules| && c.ExportRecord(i, NameOf(k, i)) == Some(0)
    requires Source(c, i, NameOf(k, i)) == Some(i + 1)
    requires RouteIsVisible(c, i, NameOf(k, i)) && RouteIsImport(c, i, NameOf(k, i)) && EndOf(c, k, i, t)
    ensures RouteOf(c, k, i, t)
  {
  }

  lemma EveryEnd(c: Context, k: nat, i: nat, t: Target)
    requires c.Valid() && |c.modules| == k + 4 && 1 <= i <= k + 2
    requires forall j {:trigger EndOf(c, k, j, t)} | 1 <= j <= k :: EndOf(c, k, j, t)
    requires EndOf(c, k, k + 1, t) && EndOf(c, k, k + 2, t)
    ensures EndOf(c, k, i, t)
  {
  }

  lemma LinkEnds(c: Context, k: nat, kept: seq<bool>, i: nat)
    requires IsNamespaceChain(c, k, kept) && 1 <= i <= k + 2
    ensures c.Valid() && EndOf(c, k, i, ModuleInit(k + 3))
  {
    assert c.Valid() by {
      ChainIsValid(c, k, kept);
    }
    forall j {:trigger EndOf(c, k, j, ModuleInit(k + 3))} | 1 <= j <= k ensures EndOf(c, k, j, ModuleInit(k + 3)) {
      NextLink(c, k, kept, j);
    }
    NamespaceLink(c, k, kept);
    LastLink(c, k, kept);
    EveryEnd(c, k, i, ModuleInit(k + 3));
  }

  lemma LinkRouteOf(c: Context, k: nat, kept: seq<bool>, i: nat)
    requires IsNamespaceChain(c, k, kept) && 1 <= i <= k + 2
    ensures c.Valid() && RouteOf(c, k, i, ModuleInit(k + 3))
  {
    LinkRoute(c, k, kept, i);
    LinkEnds(c, k, kept, i);
    RouteOfLink(c, k, i, ModuleInit(k + 3));
  }

  lemma LinkRoutes(c: Context, k: nat, kept: seq<bool>)
    requires IsNamespaceChain(c, k, kept)
    ensures Routes(c, k, ModuleInit(k + 3))
  {
    assert c.Valid() by {
      ChainIsValid(c, k, kept);
    }
    forall i {:trigger RouteOf(c, k, i, ModuleInit(k + 3))} | 1 <= i <= k + 2
      ensures RouteOf(c, k, i, ModuleInit(k + 3))
    {
      LinkRouteOf(c, k, kept, i);
    }
  }

  lemma LinkSurroundings(c: Context, k: nat, kept: seq<bool>)
    requires IsNamespaceChain(c, k, kept)
    ensures Surroundings(c, k)
  {
    LeafFacts(c, k, kept);
    forall f, n | 0 <= f < k + 4 && c.IsEagerForwarder(f) ensures RouteIsImport(c, f, n) {
      if 1 <= f <= k + 2 {
        LinkRoute(c, k, kept, f);
      } else {
        assert f == 0;
        assert c.modules[0] == Consumer();
      }
    }
  }

  lemma NamespaceChainActs(c: Context, k: nat, kept: seq<bool>)
    requires IsNamespaceChain(c, k, kept)
    ensures ActsAsChain(c, k, kept)
  {
    LinkHops(c, k, kept);
    LinkAsks(c, k, kept);
    LinkRoutes(c, k, kept);
    LinkSurroundings(c, k, kept);
  }

  /** The equivalences for the chain of re-exports itself, whatever its length. */
  lemma NamespaceReadIsCoveredIff(c: Context, k: nat, kept: seq<bool>)
    requires IsNamespaceChain(c, k, kept)
    ensures c.Valid() && Linked(c, Everything(k), ModuleInit(k + 3))
    ensures c.IsObligation(0, 0) && ModuleInit(k + 3) in c.Demand(0, 0)
    ensures IsCovered(c, 0, ModuleInit(k + 3)) <==> (kept[1] ==> forall i | 2 <= i <= k + 1 :: kept[i])
    ensures IsDropped(c, ModuleInit(k + 3)) <==> kept[1] && !kept[k + 1] && !kept[k + 2]
  {
    NamespaceChainActs(c, k, kept);
    ChainIsCoveredIff(c, k, kept);
    ChainIsDroppedIff(c, k, kept);
  }

  ghost function SymbolTargets(k: nat, n: nat): map<(nat, Symbol), set<Target>> {
    map m: nat | m < n && IsIndex(n, m) :: (m, LEAF) := {ModuleInit(k + 3)}
  }

  function Modules(k: nat, kept: seq<bool>): (s: seq<Module>)
    requires |kept| == k + 3
    ensures |s| == k + 4
  {
    [Consumer()] + seq(k + 2, i requires 0 <= i < k + 2 => Link(k, i + 1, kept[i + 1])) + [Leaf()]
  }

  lemma ChainExists(k: nat, kept: seq<bool>) returns (c: Context)
    requires k >= 1 && |kept| == k + 3
    ensures IsNamespaceChain(c, k, kept)
  {
    c := Context(Modules(k, kept), {}, {}, {}, {}, {}, {}, {}, Indices(k + 4), {k + 3},
                 SymbolTargets(k, k + 4), map[], true);
    forall i | 1 <= i <= k + 2 ensures c.modules[i] == Link(k, i, kept[i]) {
    }
    forall m: nat, s ensures c.TargetsOf(m, s) == if s == LEAF && m < k + 4 then {ModuleInit(k + 3)} else {} {
      assert (m, s) in c.symbolTargets <==> s == LEAF && m < k + 4 && IsIndex(k + 4, m);
    }
  }

  /** `import { u } from 1; u.x`, where 1 is `export { u } from 2`, 2 is `export * as u from 3` and 3 is
      `export { x } from 4`: with the statement of 2 alone excluded, neither 0 nor any forwarder it
      reaches calls the leaf. */
  lemma NamespaceReadCanBeLost() returns (c: Context)
    ensures IsNamespaceChain(c, 1, [true, true, false, true]) && c.Valid() && Linked(c, Everything(1), ModuleInit(4))
    ensures c.IsObligation(0, 0) && ModuleInit(4) in c.Demand(0, 0) && !IsCovered(c, 0, ModuleInit(4))
  {
    var kept := [true, true, false, true];
    c := ChainExists(1, kept);
    NamespaceReadIsCoveredIff(c, 1, kept);
    assert kept[1] && !kept[2];
  }
}
