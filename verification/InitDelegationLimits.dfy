/** Where delegation of initialization ends: rings of forwarders, and wrapped barrels. */
module InitDelegationLimits {
  import opened InitCompletion
  import opened InitCoverage
  import opened InitDelegation
  import opened InitTargets
  import opened Wrappers

  // ---- Rings of partial forwarders --------------------------------------------------------

  function Next(ring: seq<nat>, i: nat): nat
    requires i < |ring|
  {
    if i + 1 == |ring| then ring[0] else ring[i + 1]
  }

  ghost function OnlyRecord(c: Context, m: nat): (r: nat)
    requires c.Valid() && m < |c.modules| && |c.Obligations(m, 0)| == 1
    ensures c.Obligations(m, 0) == [r] && c.IsRecord(m, r)
  {
    c.Obligations(m, 0)[0]
  }

  /** In strict mode, a module whose one obligation asks the partial forwarder `f` for `t` and
      nothing else. */
  ghost predicate AsksNext(c: Context, m: nat, f: nat, t: Target)
    requires c.Valid()
  {
    && c.strict && m < |c.modules| && f < |c.modules| && c.modules[m].normal
    && c.IsEagerForwarder(f) && !c.DischargesOwnHops(f) && |c.Obligations(m, 0)| == 1
    && c.Importee(m, OnlyRecord(c, m)) == Some(f) && c.RoutedTargets(m, OnlyRecord(c, m), f) == {t}
  }

  ghost predicate IsRing(c: Context, ring: seq<nat>, t: Target)
    requires c.Valid()
  {
    && ring != [] && (forall i, j | 0 <= i < j < |ring| :: ring[i] != ring[j])
    && forall i {:trigger AsksAt(c, ring, i, t)} | 0 <= i < |ring| :: AsksAt(c, ring, i, t)
  }

  ghost predicate AsksAt(c: Context, ring: seq<nat>, i: nat, t: Target)
    requires c.Valid() && i < |ring|
  {
    AsksNext(c, ring[i], Next(ring, i), t)
  }

  /** A member emits the target exactly if the next one is not credited with it. */
  lemma AskStep(c: Context, m: nat, f: nat, t: Target, visited: set<nat>)
    requires c.Valid() && AsksNext(c, m, f, t)
    ensures Collect(c, m, OnlyRecord(c, m), visited).0 == {t} - Discharged(c, f, visited).0
  {
    assert !c.StopsAtWrapper(m, OnlyRecord(c, m), f);
  }

  lemma CreditStep(c: Context, m: nat, f: nat, t: Target, visited: set<nat>)
    requires c.Valid() && AsksNext(c, m, f, t) && m !in visited
    ensures Discharged(c, m, visited).0 == {t} - Discharged(c, f, visited + {m}).0
  {
    var r := OnlyRecord(c, m);
    AskStep(c, m, f, t, visited + {m});
    assert [r][1..] == [];
    assert Discharged(c, m, visited) == CollectAll(c, m, [r], visited + {m});
    assert CollectAll(c, m, [r][1..], Collect(c, m, r, visited + {m}).1).0 == {};
  }

  ghost function Members(ring: seq<nat>, k: nat): set<nat>
    requires k < |ring|
  {
    set i | 1 <= i <= k :: ring[i]
  }

  lemma Asks(c: Context, ring: seq<nat>, t: Target, i: nat)
    requires c.Valid() && IsRing(c, ring, t) && i < |ring|
    ensures AsksNext(c, ring[i], Next(ring, i), t) && Next(ring, i) < |c.modules|
  {
    assert AsksAt(c, ring, i, t);
  }

  /** What the member after the `k`-th is credited with, once members 1 to `k` were visited. */
  ghost function Credit(c: Context, ring: seq<nat>, k: nat): set<Target>
    requires c.Valid() && k < |ring|
  {
    if Next(ring, k) < |c.modules| then Discharged(c, Next(ring, k), Members(ring, k)).0 else {}
  }

  lemma CreditAlternates(c: Context, ring: seq<nat>, t: Target, k: nat)
    requires c.Valid() && IsRing(c, ring, t) && k + 1 < |ring|
    ensures Credit(c, ring, k) == {t} - Credit(c, ring, k + 1)
  {
    Asks(c, ring, t, k);
    Asks(c, ring, t, k + 1);
    NextIsFresh(ring, k);
    CreditStep(c, ring[k + 1], Next(ring, k + 1), t, Members(ring, k));
  }

  ghost predicate Alternating(credits: seq<set<Target>>, t: Target) {
    && credits != [] && credits[|credits| - 1] == {t}
    && forall k {:trigger credits[k]} | 0 <= k && k + 1 < |credits| :: credits[k] == {t} - credits[k + 1]
  }

  lemma {:induction false} ParityDecides(credits: seq<set<Target>>, t: Target, k: nat)
    requires Alternating(credits, t) && k < |credits|
    ensures credits[k] == if (|credits| - k) % 2 == 0 then {} else {t}
    decreases |credits| - k
  {
    if k + 1 < |credits| {
      ParityDecides(credits, t, k + 1);
    }
  }

  lemma LastCredit(c: Context, ring: seq<nat>, t: Target)
    requires c.Valid() && IsRing(c, ring, t)
    ensures Credit(c, ring, |ring| - 1) == {t}
  {
    LastMember(c, ring, t);
  }

  lemma CreditsAlternate(c: Context, ring: seq<nat>, t: Target) returns (credits: seq<set<Target>>)
    requires c.Valid() && IsRing(c, ring, t)
    ensures |credits| == |ring| && Alternating(credits, t)
    ensures credits[0] == Credit(c, ring, 0)
  {
    credits := seq(|ring|, k requires 0 <= k < |ring| => Credit(c, ring, k));
    LastCredit(c, ring, t);
    forall k {:trigger credits[k]} | 0 <= k && k + 1 < |ring| ensures credits[k] == {t} - credits[k + 1] {
      CreditAlternates(c, ring, t, k);
    }
  }

  lemma NextIsFresh(ring: seq<nat>, k: nat)
    requires k + 1 < |ring| && forall i, j | 0 <= i < j < |ring| :: ring[i] != ring[j]
    ensures ring[k + 1] !in Members(ring, k) && Members(ring, k + 1) == Members(ring, k) + {ring[k + 1]}
  {
  }

  lemma LastMember(c: Context, ring: seq<nat>, t: Target)
    requires c.Valid() && IsRing(c, ring, t)
    ensures ring[0] < |c.modules| && Discharged(c, ring[0], Members(ring, |ring| - 1)).0 == {t}
  {
    var visited := Members(ring, |ring| - 1);
    Asks(c, ring, t, 0);
    Asks(c, ring, t, |ring| - 1);
    assert ring[0] !in visited;
    CreditStep(c, ring[0], Next(ring, 0), t, visited);
    assert Next(ring, 0) in visited + {ring[0]};
    assert Discharged(c, Next(ring, 0), visited + {ring[0]}).0 == {};
  }

  function Rotated(ring: seq<nat>, i: nat): seq<nat>
    requires i < |ring|
  {
    ring[i..] + ring[..i]
  }

  lemma RotatedIsRing(c: Context, ring: seq<nat>, t: Target, i: nat)
    requires c.Valid() && IsRing(c, ring, t) && i < |ring|
    ensures IsRing(c, Rotated(ring, i), t)
  {
    var turned := Rotated(ring, i);
    forall j {:trigger AsksAt(c, turned, j, t)} | 0 <= j < |turned| ensures AsksAt(c, turned, j, t) {
      var k := if i + j < |ring| then i + j else i + j - |ring|;
      assert turned[j] == ring[k] && Next(turned, j) == Next(ring, k);
      assert AsksAt(c, ring, k, t);
    }
  }

  lemma OnlyRecordDecides(c: Context, m: nat, t: Target)
    requires c.Valid() && m < |c.modules| && c.modules[m].normal && |c.Obligations(m, 0)| == 1
    ensures IsEmitted(c, m, t) <==> t in Collect(c, m, OnlyRecord(c, m), {}).0
  {
    var r := OnlyRecord(c, m);
    assert c.IsObligation(m, r);
  }

  /** On a cycle of partial forwarders the visited cut decides by parity: every member emits the
      target itself if the cycle is even, and no member emits it if the cycle is odd. */
  lemma RingEmitsIfEven(c: Context, ring: seq<nat>, t: Target, i: nat)
    requires c.Valid() && IsRing(c, ring, t) && i < |ring|
    ensures IsEmitted(c, ring[i], t) <==> |ring| % 2 == 0
  {
    var turned := Rotated(ring, i);
    RotatedIsRing(c, ring, t, i);
    Asks(c, turned, t, 0);
    var credits := CreditsAlternate(c, turned, t);
    ParityDecides(credits, t, 0);
    assert Members(turned, 0) == {};
    AskStep(c, turned[0], Next(turned, 0), t, {});
    OnlyRecordDecides(c, turned[0], t);
  }

  // ---- A ring that links consistently -----------------------------------------------------

  const X: Name := Name(0)
  const LEAF: Symbol := Symbol(0)
  const USED: Symbol := Symbol(1)
  const FORWARDED: Symbol := Symbol(2)

  function From(record: nat): Import { Import(record, Literal(X)) }

  function To(f: nat): Record { Record(true, false, Some(f)) }

  /** Uses `x` imported from `next`, and re-exports `x` from the leaf 3 in a statement that tree
      shaking excluded. */
  function PartialForwarder(next: nat): Module {
    Module(true, [To(next), To(3)], map[USED := From(0), FORWARDED := From(1)], map[X := FORWARDED],
           [Statement(true, [0], {Whole(USED)}), Statement(false, [1], {})],
           map[X := LEAF], {X}, map[], false, true, true, false)
  }

  /** A wrapped module that declares `x`. */
  function Leaf(): Module {
    Module(true, [], map[], map[X := LEAF], [], map[X := LEAF], {X}, map[], true, false, true, false)
  }

  ghost predicate NothingSpecial(c: Context) {
    && c.transparent == {} && c.localRoutes == {} && c.localRecords == {} && c.nested == {} && c.used == {}
    && c.facades == {} && c.inlined == {} && c.routeCarriers == map[] && c.strict
    && c.ownsInit == {0, 1, 2, 3} && |c.modules| == 4
    && forall m: nat, s :: c.TargetsOf(m, s) == if s == LEAF && m < 4 then {ModuleInit(3)} else {}
  }

  ghost predicate IsRingOfThree(c: Context) {
    && NothingSpecial(c) && c.reachable == {3}
    && c.modules[0] == PartialForwarder(1) && c.modules[1] == PartialForwarder(2) && c.modules[2] == PartialForwarder(0)
    && c.modules[3] == Leaf()
  }

  lemma PartialForwarderIsValid(c: Context, m: nat, next: nat)
    requires |c.modules| == 4 && m < 4 && next < 4 && c.modules[m] == PartialForwarder(next)
    ensures c.ValidModule(m)
  {
  }

  lemma LeafIsValid(c: Context, m: nat)
    requires |c.modules| == 4 && m < 4 && c.modules[m] == Leaf()
    ensures c.ValidModule(m)
  {
  }

  lemma RingOfThreeIsValid(c: Context)
    requires IsRingOfThree(c)
    ensures c.Valid() && !c.RoutesRecords(3)
    ensures forall m | 0 <= m < 3 :: c.modules[m] == PartialForwarder(Successor(m)) && c.IsEagerForwarder(m)
  {
    PartialForwarderIsValid(c, 0, 1);
    PartialForwarderIsValid(c, 1, 2);
    PartialForwarderIsValid(c, 2, 0);
    LeafIsValid(c, 3);
  }

  function Successor(m: nat): nat { if m == 2 then 0 else m + 1 }

  lemma MemberAsksNext(c: Context, m: nat)
    requires IsRingOfThree(c) && m < 3
    ensures c.Valid() && AsksNext(c, m, Successor(m), ModuleInit(3))
  {
    RingOfThreeIsValid(c);
    var f := Successor(m);
    assert c.Emits(m, 0, true) && !c.Emits(m, 1, false) && !c.Discharges(f, 1, false);
    assert c.modules[f].statements[1] == Statement(false, [1], {}) && 1 in c.modules[f].statements[1].records;
    assert c.Obligations(m, 2) == [];
    assert [1][1..] == [] && [0][1..] == [];
    assert c.EmittedRecords(m, [1], false) == [] && c.EmittedRecords(m, [0], true) == [0];
    MemberDemandsLeaf(c, m);
  }

  lemma WholeUseIsOpaque(c: Context, m: nat, f: nat, l: Symbol, i: nat)
    requires m < |c.modules| && f < |c.modules| && l in c.modules[m].imports && i < |c.modules[m].statements|
    requires c.modules[m].statements[i].included && Whole(l) in c.modules[m].statements[i].references
    ensures c.ReadsOpaquely(m, f, l)
  {
    assert c.IsOpaqueRead(m, f, l, c.modules[m].statements[i].included, Whole(l));
  }

  lemma MemberDemandsLeaf(c: Context, m: nat)
    requires IsRingOfThree(c) && m < 3
    ensures c.Valid() && c.RoutedTargets(m, 0, Successor(m)) == {ModuleInit(3)}
  {
    RingOfThreeIsValid(c);
    var f := Successor(m);
    WholeUseIsOpaque(c, m, f, USED, 0);
    assert c.WholeBinding(m, f, USED) == {LEAF};
    assert LEAF in c.BindingSymbols(m, f, USED);
    assert LEAF in c.DemandedSymbols(m, 0, f);
    assert c.TargetsOf(m, LEAF) == {ModuleInit(3)};
  }

  const ALL: set<nat> := {0, 1, 2, 3}

  /** Consistent linking and carried delegations do not rule such a ring out: every member demands the
      leaf, the leaf is there to be initialized, and no member emits it. */
  lemma LinkedRingDropsLeaf(c: Context, m: nat)
    requires IsRingOfThree(c) && m < 3
    ensures c.Valid() && TargetsAreWrappers(c) && Linked(c, ALL, ModuleInit(3))
    ensures DelegationsAreCarried(c, ALL, ModuleInit(3))
    ensures c.IsObligation(m, 0) && ModuleInit(3) in c.Demand(m, 0) && !IsEmitted(c, m, ModuleInit(3))
  {
    RingTargets(c);
    RingOfThreeIsLinked(c);
    RingCarries(c);
    MemberRecord(c, m);
    assert !IsEmitted(c, m, ModuleInit(3)) by {
      RingOfThreeIsRing(c);
      RingEmitsIfEven(c, [0, 1, 2], ModuleInit(3), m);
    }
  }

  lemma MemberRecord(c: Context, m: nat)
    requires IsRingOfThree(c) && m < 3
    ensures c.Valid() && c.IsObligation(m, 0) && ModuleInit(3) in c.Demand(m, 0)
  {
    RingOfThreeIsValid(c);
    MemberDemandsLeaf(c, m);
    assert c.Emits(m, 0, true) && 0 in c.modules[m].statements[0].records;
  }

  lemma RingOfThreeIsRing(c: Context)
    requires IsRingOfThree(c)
    ensures c.Valid() && IsRing(c, [0, 1, 2], ModuleInit(3))
  {
    assert c.Valid() by {
      RingOfThreeIsValid(c);
    }
    var ring := [0, 1, 2];
    forall i {:trigger AsksAt(c, ring, i, ModuleInit(3))} | 0 <= i < 3 ensures AsksAt(c, ring, i, ModuleInit(3)) {
      AskAt(c, i);
    }
  }

  lemma AskAt(c: Context, i: nat)
    requires IsRingOfThree(c) && i < 3
    ensures c.Valid() && AsksNext(c, [0, 1, 2][i], Next([0, 1, 2], i), ModuleInit(3))
  {
    MemberAsksNext(c, i);
    RingIndices(i);
  }

  lemma RingIndices(i: nat)
    requires i < 3
    ensures [0, 1, 2][i] == i && Next([0, 1, 2], i) == Successor(i)
  {
  }

  lemma RingTargets(c: Context)
    requires IsRingOfThree(c)
    ensures c.Valid() && TargetsAreWrappers(c)
  {
    RingOfThreeIsValid(c);
  }

  lemma RingOfThreeIsLinked(c: Context)
    requires IsRingOfThree(c)
    ensures c.Valid() && Linked(c, ALL, ModuleInit(3))
  {
    assert c.Valid() by {
      RingOfThreeIsValid(c);
    }
    forall f: nat, n | f in ALL && f < |c.modules| && c.IsEagerForwarder(f) ensures RouteIsImport(c, f, n) {
      MemberRoute(c, f, n);
    }
    forall m, r {:trigger DemandIsLinked(c, m, r, ModuleInit(3))} | m in ALL
      ensures DemandIsLinked(c, m, r, ModuleInit(3))
    {
      RingDemandIsLinked(c, m, r);
    }
  }

  lemma RingDemandIsLinked(c: Context, m: nat, r: nat)
    requires IsRingOfThree(c)
    ensures c.Valid() && DemandIsLinked(c, m, r, ModuleInit(3))
  {
    assert c.Valid() by {
      RingOfThreeIsValid(c);
    }
    if m < |c.modules| && c.IsObligation(m, r) && c.Importee(m, r).Some? &&
       c.IsEagerForwarder(c.Importee(m, r).value) {
      MemberLeadsToLeaf(c, c.Importee(m, r).value);
    }
  }

  lemma RingCarries(c: Context)
    requires IsRingOfThree(c)
    ensures c.Valid() && DelegationsAreCarried(c, ALL, ModuleInit(3))
  {
    assert c.Valid() by {
      RingOfThreeIsValid(c);
    }
    forall m, r {:trigger DelegationIsCarried(c, m, r, ModuleInit(3))} | m in ALL
      ensures DelegationIsCarried(c, m, r, ModuleInit(3))
    {
      if m < |c.modules| && c.IsObligation(m, r) {
        NobodyIsLetOff(c, m, r);
      }
    }
  }

  lemma NobodyIsLetOff(c: Context, m: nat, r: nat)
    requires IsRingOfThree(c) && c.IsRecord(m, r)
    ensures c.Valid() && !IsLetOff(c, m, r)
  {
    RingOfThreeIsValid(c);
    var f := c.Importee(m, r).value;
    if c.IsEagerForwarder(f) {
      assert c.modules[f].statements[1] == Statement(false, [1], {}) && 1 in c.modules[f].statements[1].records;
      assert !c.Discharges(f, 1, false);
    }
  }

  lemma MemberRoute(c: Context, f: nat, n: Name)
    requires IsRingOfThree(c) && f < 4 && c.IsEagerForwarder(f)
    ensures c.Valid() && RouteIsImport(c, f, n)
  {
    RingOfThreeIsValid(c);
    assert 1 in c.modules[f].statements[1].records;
  }

  lemma MemberLeadsToLeaf(c: Context, f: nat)
    requires IsRingOfThree(c) && f < 4 && c.IsEagerForwarder(f)
    ensures c.Valid() && Leads(c, f, X, ModuleInit(3), 0)
  {
    RingOfThreeIsValid(c);
    assert f < 3;
    assert c.ExportRecord(f, X) == Some(1) && c.Importee(f, 1) == Some(3);
    assert ModuleInit(3) in Exposed(c, f, X);
  }

  // ---- A wrapped barrel behind a forwarder that discharges all its hops -------------------

  /** Uses `x` imported from the forwarder 1. */
  function Consumer(): Module {
    Module(true, [To(1)], map[USED := From(0)], map[], [Statement(true, [0], {Whole(USED)})],
           map[], {}, map[], false, true, true, false)
  }

  /** Re-exports `x` from `next` in an included statement. */
  function Reexporter(next: nat, wrapped: bool): Module {
    Module(true, [To(next)], map[FORWARDED := From(0)], map[X := FORWARDED], [Statement(true, [0], {})],
           map[X := LEAF], {X}, map[], wrapped, !wrapped, true, false)
  }

  /** 0 reads `x` through the eager forwarder 1, the wrapped barrel 2 and the wrapped leaf 3. */
  ghost predicate IsBarrelChain(c: Context) {
    && NothingSpecial(c) && c.reachable == {2, 3}
    && c.modules[0] == Consumer() && c.modules[1] == Reexporter(2, false) && c.modules[2] == Reexporter(3, true)
    && c.modules[3] == Leaf()
  }

  lemma BarrelChainIsValid(c: Context)
    requires IsBarrelChain(c)
    ensures c.Valid() && !c.RoutesRecords(2) && !c.RoutesRecords(3) && c.DischargesOwnHops(1)
  {
    forall m | 0 <= m < 4 ensures c.ValidModule(m) {
    }
  }

  lemma BarrelTargets(c: Context)
    requires IsBarrelChain(c)
    ensures c.Valid() && TargetsAreWrappers(c)
  {
    BarrelChainIsValid(c);
  }

  lemma BarrelRecord(c: Context, m: nat, r: nat)
    requires IsBarrelChain(c) && c.IsRecord(m, r)
    ensures m < 3 && r == 0 && c.Importee(m, r) == Some(m + 1)
  {
  }

  /** What the export `x` of the forwarder and of the barrel leads to is carried by their records. */
  lemma ReexporterCarries(c: Context, f: nat)
    requires IsBarrelChain(c) && 1 <= f < 3
    ensures c.Valid() && IsCarried(c, f, X, ModuleInit(3), 0)
  {
    BarrelChainIsValid(c);
    assert c.ExportRecord(f, X) == Some(0) && c.Importee(f, 0) == Some(f + 1);
    assert c.Emits(f, 0, true) && 0 in c.modules[f].statements[0].records;
    assert RouteIsImport(c, f, X) && RouteIsObligation(c, f, X) && RouteIsVisible(c, f, X);
    assert ModuleInit(3) in Exposed(c, f, X);
  }

  lemma BarrelChainCarries(c: Context)
    requires IsBarrelChain(c)
    ensures c.Valid() && DelegationsAreCarried(c, ALL, ModuleInit(3))
  {
    assert c.Valid() by {
      BarrelChainIsValid(c);
    }
    forall m, r {:trigger DelegationIsCarried(c, m, r, ModuleInit(3))} | m in ALL
      ensures DelegationIsCarried(c, m, r, ModuleInit(3))
    {
      if m < |c.modules| && c.IsObligation(m, r) && IsLetOff(c, m, r) {
        BarrelRecord(c, m, r);
        assert m == 0;
        ReexporterCarries(c, 1);
      }
    }
  }

  lemma ConsumerDemandsLeaf(c: Context)
    requires IsBarrelChain(c)
    ensures c.Valid() && c.IsObligation(0, 0) && ModuleInit(3) in c.Demand(0, 0)
  {
    BarrelChainIsValid(c);
    WholeUseIsOpaque(c, 0, 1, USED, 0);
    assert c.WholeBinding(0, 1, USED) == {LEAF};
    assert LEAF in c.BindingSymbols(0, 1, USED);
    assert LEAF in c.DemandedSymbols(0, 0, 1);
    assert c.TargetsOf(0, LEAF) == {ModuleInit(3)};
    assert c.Emits(0, 0, true) && 0 in c.modules[0].statements[0].records;
  }

  lemma ConsumerEmitsNothing(c: Context)
    requires IsBarrelChain(c)
    ensures c.Valid() && !IsEmitted(c, 0, ModuleInit(3)) && forall f :: Hop(c, 0, f) ==> f == 1
  {
    BarrelChainIsValid(c);
    assert Collect(c, 0, 0, {}).0 == {};
    forall r | c.IsObligation(0, r) ensures r == 0 {
      assert c.IsRecord(0, r);
    }
  }

  lemma ForwarderEmitsBarrel(c: Context)
    requires IsBarrelChain(c)
    ensures c.Valid() && !IsEmitted(c, 1, ModuleInit(3)) && IsEmitted(c, 1, ModuleInit(2))
    ensures forall f :: !Hop(c, 1, f)
  {
    BarrelChainIsValid(c);
    assert c.StopsAtWrapper(1, 0, 2);
    assert Collect(c, 1, 0, {}).0 == {ModuleInit(2)};
    assert c.Emits(1, 0, true) && 0 in c.modules[1].statements[0].records;
    assert c.IsObligation(1, 0);
    forall r | c.IsObligation(1, r) ensures r == 0 {
      assert c.IsRecord(1, r);
    }
  }

  /** The demand is not always emitted literally: here neither the importer nor the only forwarder
      it can reach emits the leaf's `init_*`, because the forwarder emits that of the barrel. */
  lemma LeafIsLeftToBarrel(c: Context)
    requires IsBarrelChain(c)
    ensures InScope(c, ALL, Depth, ModuleInit(3)) && c.IsObligation(0, 0) && ModuleInit(3) in c.Demand(0, 0)
    ensures !IsEmitted(c, 0, ModuleInit(3)) && !IsEmitted(c, 1, ModuleInit(3)) && IsEmitted(c, 1, ModuleInit(2))
    ensures forall f :: (Hop(c, 0, f) ==> f == 1) && !Hop(c, 1, f)
  {
    BarrelIsInScope(c);
    HopsAreImports(c, ALL, Depth, ModuleInit(3));
    ConsumerDemandsLeaf(c);
    ConsumerEmitsNothing(c);
    ForwarderEmitsBarrel(c);
  }

  lemma BarrelCarries(c: Context, g: nat)
    requires IsBarrelChain(c) && g < 4
    ensures c.Valid() && WrapperCarries(c, g, ModuleInit(3))
  {
    assert c.Valid() by {
      BarrelChainIsValid(c);
    }
    if g == 2 {
      ReexporterCarries(c, 2);
    } else if IsBehind(c, g, ModuleInit(3)) {
      assert c.modules[g].wrapped;
    }
  }

  function Depth(m: nat): nat {
    if m < 4 then 4 - m else 0
  }

  lemma BarrelImport(c: Context, m: nat, f: nat)
    requires IsBarrelChain(c) && c.Valid() && Imports(c, m, f)
    ensures Depth(f) < Depth(m) && f in ALL
  {
    var r :| c.IsObligation(m, r) && c.Importee(m, r) == Some(f);
    BarrelRecord(c, m, r);
  }

  lemma BarrelIsInScope(c: Context)
    requires IsBarrelChain(c)
    ensures InImportScope(c, ALL, Depth, ModuleInit(3))
  {
    BarrelTargets(c);
    BarrelChainCarries(c);
    forall m, f {:trigger Imports(c, m, f)} | m in ALL && Imports(c, m, f) ensures Depth(f) < Depth(m) && f in ALL {
      BarrelImport(c, m, f);
    }
    forall g {:trigger WrapperCarries(c, g, ModuleInit(3))} | g in ALL ensures WrapperCarries(c, g, ModuleInit(3)) {
      BarrelCarries(c, g);
    }
  }

  /** There the leaf is initialized all the same, by the barrel's body. */
  lemma BarrelInitializesLeaf(c: Context)
    requires IsBarrelChain(c)
    ensures InImportScope(c, ALL, Depth, ModuleInit(3)) && Initializes(c, 0, ModuleInit(3))
  {
    BarrelIsInScope(c);
    ConsumerDemandsLeaf(c);
    DemandIsInitialized(c, ALL, Depth, 0, 0, ModuleInit(3));
  }
}
