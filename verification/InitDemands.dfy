/** What a record demands and emits, told by the statements and imports of the module table. */
module InitDemands {
  import opened InitDelegation
  import opened InitTargets
  import opened Wrappers

  // ---- The importee -----------------------------------------------------------------------

  predicate HasLiveInit(c: Context, f: nat)
    requires f < |c.modules|
  {
    c.modules[f].wrapped && c.modules[f].included && !c.modules[f].concatInner && f in c.reachable
  }

  ghost predicate HasLocalRecord(c: Context, f: nat) {
    exists r: nat :: (f, r) in c.localRecords
  }

  /** Part of the module's bindings are initialized by their consumers, the rest by its own `init_*`. */
  ghost predicate IsMixed(c: Context, f: nat)
    requires f < |c.modules|
  {
    HasLiveInit(c, f) && HasLocalRecord(c, f)
  }

  predicate ImportsExport(c: Context, f: nat, n: Name)
    requires f < |c.modules|
  {
    n in c.modules[f].namedExports && c.modules[f].namedExports[n] in c.modules[f].imports
  }

  /** The export comes through a record that its consumers initialize. */
  predicate IsLocalExport(c: Context, f: nat, n: Name)
    requires f < |c.modules|
  {
    && c.modules[f].normal
    && if ImportsExport(c, f, n) then
         (f, c.modules[f].imports[c.modules[f].namedExports[n]].record) in c.localRecords
       else n in c.modules[f].starRecord && (f, c.modules[f].starRecord[n]) in c.localRecords
  }

  /** The importee's own `init_*` initializes this export. */
  ghost predicate InitializesItself(c: Context, f: nat, n: Name)
    requires f < |c.modules|
  {
    IsMixed(c, f) && !IsLocalExport(c, f, n)
  }

  ghost predicate IsBindingOf(c: Context, m: nat, r: nat, l: Symbol) {
    m < |c.modules| && l in c.modules[m].imports && c.modules[m].imports[l].record == r
  }

  /** The importee is called as a whole, and nothing is looked up in it. */
  ghost predicate CallsWrapper(c: Context, m: nat, r: nat, f: nat)
    requires c.IsRecord(m, r) && f < |c.modules|
  {
    && HasLiveInit(c, f) && !HasLocalRecord(c, f)
    && (f in c.transparent ==>
          !c.modules[m].records[r].isStar && f !in c.localRoutes && forall l :: !IsBindingOf(c, m, r, l))
  }

  // ---- The uses ---------------------------------------------------------------------------

  /** An included statement refers to the binding in this way. */
  ghost predicate Refers(c: Context, m: nat, x: Reference)
    requires m < |c.modules|
  {
    exists i {:trigger c.modules[m].statements[i]} | 0 <= i < |c.modules[m].statements| ::
      c.modules[m].statements[i].included && x in c.modules[m].statements[i].references
  }

  ghost predicate IsReexported(c: Context, m: nat, l: Symbol)
    requires m < |c.modules|
  {
    exists n :: n in c.modules[m].namedExports && c.modules[m].namedExports[n] == l
  }

  /** The binding is needed as a whole, whatever the statements say. */
  ghost predicate IsTakenWhole(c: Context, m: nat, l: Symbol)
    requires m < |c.modules| && l in c.modules[m].imports
  {
    l in c.used || IsReexported(c, m, l) || (c.modules[m].imports[l].imported.Literal? && l in c.facades)
  }

  /** A member of a namespace that the importee initializes with its own body. */
  ghost predicate IsOwnMember(c: Context, m: nat, f: nat, l: Symbol, p: Option<Name>)
    requires m < |c.modules| && f < |c.modules| && l in c.modules[m].imports
  {
    c.modules[m].imports[l].imported.Star? && p.Some? && InitializesItself(c, f, p.value)
  }

  /** Some statement uses the binding without stopping at one known member. */
  ghost predicate IsReadWhole(c: Context, m: nat, f: nat, l: Symbol)
    requires m < |c.modules| && f < |c.modules| && l in c.modules[m].imports
  {
    Refers(c, m, Whole(l)) || exists p :: Refers(c, m, Member(l, p, Unresolved)) && !IsOwnMember(c, m, f, l, p)
  }

  /** Some statement reads a member of the binding that was resolved to the symbol. */
  ghost predicate ReadsMember(c: Context, m: nat, f: nat, l: Symbol, s: Symbol)
    requires m < |c.modules| && f < |c.modules| && l in c.modules[m].imports
  {
    s !in c.inlined && exists p :: Refers(c, m, Member(l, p, Read(Some(s)))) && !IsOwnMember(c, m, f, l, p)
  }

  /** The symbols that the binding stands for as a whole. */
  ghost predicate StandsForSymbol(c: Context, m: nat, f: nat, l: Symbol, s: Symbol)
    requires m < |c.modules| && f < |c.modules| && l in c.modules[m].imports
  {
    match c.modules[m].imports[l].imported
    case Star =>
      exists n :: n in c.modules[f].visible && n in c.modules[f].exports && s == c.modules[f].exports[n]
        && !InitializesItself(c, f, n)
    case Literal(n) => s == if n in c.modules[f].exports then c.modules[f].exports[n] else l
  }

  /** The binding needs the symbol. Once it is taken whole, its member reads are not looked at. */
  ghost predicate BindingNeeds(c: Context, m: nat, f: nat, l: Symbol, s: Symbol)
    requires m < |c.modules| && f < |c.modules| && l in c.modules[m].imports
  {
    && !(c.modules[m].imports[l].imported.Literal? && InitializesItself(c, f, c.modules[m].imports[l].imported.name))
    && if IsTakenWhole(c, m, l) then StandsForSymbol(c, m, f, l, s)
       else ReadsMember(c, m, f, l, s) || (IsReadWhole(c, m, f, l) && StandsForSymbol(c, m, f, l, s))
  }

  /** An `export *` needs what becomes visible through it. */
  ghost predicate StarNeeds(c: Context, m: nat, r: nat, f: nat, s: Symbol)
    requires m < |c.modules| && f < |c.modules|
  {
    exists n :: n in c.modules[f].visible && n in c.modules[f].exports && s == c.modules[f].exports[n]
      && !InitializesItself(c, f, n)
      && (c.strict ==> n in c.modules[m].visible && n in c.modules[m].starRecord && c.modules[m].starRecord[n] == r)
  }

  ghost predicate Needs(c: Context, m: nat, r: nat, f: nat, s: Symbol)
    requires c.IsRecord(m, r) && f < |c.modules|
  {
    if c.modules[m].records[r].isStar then StarNeeds(c, m, r, f, s)
    else exists l :: IsBindingOf(c, m, r, l) && BindingNeeds(c, m, f, l, s)
  }

  // ---- The demand -------------------------------------------------------------------------

  lemma ImporteeIff(c: Context, m: nat, r: nat, f: nat)
    requires c.Valid() && c.IsRecord(m, r) && f < |c.modules|
    ensures c.WrapperIsReachable(f) <==> HasLiveInit(c, f)
    ensures c.OwnsNonRoutedInit(f) <==> IsMixed(c, f)
    ensures c.StopsAtWrapper(m, r, f) <==> CallsWrapper(c, m, r, f)
    ensures forall n :: c.SkipsName(f, n) <==> InitializesItself(c, f, n)
  {
    if key :| key in c.localRecords && key.0 == f {
      assert (f, key.1) in c.localRecords;
    }
    if l :| IsBindingOf(c, m, r, l) {
      assert c.ConsumesBindings(m, r);
    }
    if l :| l in c.modules[m].imports && c.modules[m].imports[l].record == r {
      assert IsBindingOf(c, m, r, l);
    }
  }

  lemma WholeIff(c: Context, m: nat, r: nat, f: nat, l: Symbol)
    requires c.Valid() && c.IsRecord(m, r) && f < |c.modules| && l in c.modules[m].imports
    ensures c.IsOpaque(m, l) <==> IsTakenWhole(c, m, l)
    ensures forall s :: s in c.WholeBinding(m, f, l) <==> StandsForSymbol(c, m, f, l, s)
  {
    ImporteeIff(c, m, r, f);
  }

  lemma StatementOf(c: Context, m: nat, x: Reference) returns (i: nat)
    requires m < |c.modules| && Refers(c, m, x)
    ensures i < |c.modules[m].statements| && c.modules[m].statements[i].included
    ensures x in c.modules[m].statements[i].references
  {
    i :| i < |c.modules[m].statements| && c.modules[m].statements[i].included
      && x in c.modules[m].statements[i].references;
  }

  lemma OpaqueReadIff(c: Context, m: nat, r: nat, f: nat, l: Symbol)
    requires c.Valid() && c.IsRecord(m, r) && f < |c.modules| && l in c.modules[m].imports
    ensures c.ReadsOpaquely(m, f, l) <==> IsReadWhole(c, m, f, l)
  {
    ImporteeIff(c, m, r, f);
    if c.ReadsOpaquely(m, f, l) {
      var i, x :| 0 <= i < |c.modules[m].statements| && x in c.modules[m].statements[i].references &&
        c.IsOpaqueRead(m, f, l, c.modules[m].statements[i].included, x);
      assert Refers(c, m, x);
      if x.Member? {
        assert x == Member(l, x.property, Unresolved);
      }
    }
    if Refers(c, m, Whole(l)) {
      var i := StatementOf(c, m, Whole(l));
      assert c.IsOpaqueRead(m, f, l, true, Whole(l));
    } else if IsReadWhole(c, m, f, l) {
      var p :| Refers(c, m, Member(l, p, Unresolved)) && !IsOwnMember(c, m, f, l, p);
      var i := StatementOf(c, m, Member(l, p, Unresolved));
      assert c.IsOpaqueRead(m, f, l, true, Member(l, p, Unresolved));
    }
  }

  lemma MemberReadIff(c: Context, m: nat, r: nat, f: nat, l: Symbol, s: Symbol)
    requires c.Valid() && c.IsRecord(m, r) && f < |c.modules| && l in c.modules[m].imports
    ensures s in c.MemberReads(m, f, l) <==> ReadsMember(c, m, f, l, s)
  {
    ImporteeIff(c, m, r, f);
    if s in c.MemberReads(m, f, l) {
      var i, x :| 0 <= i < |c.modules[m].statements| && x in c.modules[m].statements[i].references
        && c.modules[m].statements[i].included && x.Member? && x.object_ == l && x.resolution == Read(Some(s))
        && !c.IsLocalMember(c.modules[m].imports[l], f, x);
      assert Refers(c, m, x) && x == Member(l, x.property, Read(Some(s)));
    }
    if ReadsMember(c, m, f, l, s) {
      var p :| Refers(c, m, Member(l, p, Read(Some(s)))) && !IsOwnMember(c, m, f, l, p);
      var x := Member(l, p, Read(Some(s)));
      var i := StatementOf(c, m, x);
      assert !c.IsLocalMember(c.modules[m].imports[l], f, x);
    }
  }

  lemma BindingIff(c: Context, m: nat, r: nat, f: nat, l: Symbol, s: Symbol)
    requires c.Valid() && c.IsRecord(m, r) && f < |c.modules| && l in c.modules[m].imports
    ensures s in c.BindingSymbols(m, f, l) <==> BindingNeeds(c, m, f, l, s)
  {
    ImporteeIff(c, m, r, f);
    WholeIff(c, m, r, f, l);
    OpaqueReadIff(c, m, r, f, l);
    MemberReadIff(c, m, r, f, l, s);
  }

  lemma SymbolIff(c: Context, m: nat, r: nat, f: nat, s: Symbol)
    requires c.Valid() && c.IsRecord(m, r) && f < |c.modules|
    ensures s in c.DemandedSymbols(m, r, f) <==> Needs(c, m, r, f, s)
  {
    ImporteeIff(c, m, r, f);
    if !c.modules[m].records[r].isStar {
      forall l | IsBindingOf(c, m, r, l) ensures s in c.BindingSymbols(m, f, l) <==> BindingNeeds(c, m, f, l, s) {
        BindingIff(c, m, r, f, l, s);
      }
    }
  }

  /** What a record of any module demands, for every program: the importee's `init_*` if the record calls the
      importee as a whole or the importee is a mixed one, the carriers of a consumer-local route, and
      the targets of the symbols that the module's own statements, exports and imports need. */
  lemma DemandIff(c: Context, m: nat, r: nat, t: Target)
    requires c.Valid() && c.IsRecord(m, r)
    ensures t in c.Demand(m, r) <==>
      c.modules[m].records[r].importee.Some? &&
      var f := c.modules[m].records[r].importee.value;
      if CallsWrapper(c, m, r, f) then t == ModuleInit(f)
      else || (t == ModuleInit(f) && IsMixed(c, f))
           || (f in c.localRoutes && f in c.routeCarriers && t in c.routeCarriers[f])
           || exists s :: Needs(c, m, r, f, s) && t in c.TargetsOf(m, s)
  {
    if c.modules[m].records[r].importee.Some? {
      var f := c.modules[m].records[r].importee.value;
      ImporteeIff(c, m, r, f);
      forall s ensures s in c.DemandedSymbols(m, r, f) <==> Needs(c, m, r, f, s) {
        SymbolIff(c, m, r, f, s);
      }
    }
  }

  /** A member read demands the member, for a namespace import and for a named one alike: if an included
      statement reads a member of a binding of the record, resolved to a symbol that is not inlined, then
      what the symbol leads to is demanded, unless the importee initializes the member, or is called as a
      whole, or the binding is taken whole. */
  lemma MemberReadIsDemanded(c: Context, m: nat, r: nat, f: nat, l: Symbol, i: nat, p: Option<Name>, s: Symbol)
    requires c.Valid() && c.IsRecord(m, r) && c.modules[m].records[r].importee == Some(f)
    requires !c.modules[m].records[r].isStar && IsBindingOf(c, m, r, l)
    requires i < |c.modules[m].statements| && c.modules[m].statements[i].included
    requires Member(l, p, Read(Some(s))) in c.modules[m].statements[i].references && s !in c.inlined
    requires !CallsWrapper(c, m, r, f) && !IsTakenWhole(c, m, l)
    requires match c.modules[m].imports[l].imported
             case Star => p.Some? ==> !InitializesItself(c, f, p.value)
             case Literal(n) => !InitializesItself(c, f, n)
    ensures c.TargetsOf(m, s) <= c.Demand(m, r)
  {
    assert Refers(c, m, Member(l, p, Read(Some(s))));
    assert BindingNeeds(c, m, f, l, s);
    forall t | t in c.TargetsOf(m, s) ensures t in c.Demand(m, r) {
      DemandIff(c, m, r, t);
    }
  }

  /** A binding that is used as a whole demands all it stands for. */
  lemma WholeUseIsDemanded(c: Context, m: nat, r: nat, f: nat, l: Symbol, s: Symbol)
    requires c.Valid() && c.IsRecord(m, r) && c.modules[m].records[r].importee == Some(f)
    requires !c.modules[m].records[r].isStar && IsBindingOf(c, m, r, l)
    requires IsTakenWhole(c, m, l) || IsReadWhole(c, m, f, l)
    requires !CallsWrapper(c, m, r, f) && StandsForSymbol(c, m, f, l, s)
    requires c.modules[m].imports[l].imported.Literal? ==>
      !InitializesItself(c, f, c.modules[m].imports[l].imported.name)
    ensures c.TargetsOf(m, s) <= c.Demand(m, r)
  {
    assert BindingNeeds(c, m, f, l, s);
    forall t | t in c.TargetsOf(m, s) ensures t in c.Demand(m, r) {
      DemandIff(c, m, r, t);
    }
  }

  // ---- A binding that is taken whole ------------------------------------------------------

  const OBJECT: Symbol := Symbol(0)
  const NAMESPACE: Symbol := Symbol(1)
  const LEAF: Symbol := Symbol(2)
  const U: Name := Name(0)
  const X: Name := Name(1)

  /** `import { u } from 1; f(u); u.x`: the read of `x` was resolved to the leaf's own symbol. */
  function WholeAndMember(): Context {
    var consumer := Module(true, [Record(true, false, Some(1))], map[OBJECT := Import(0, Literal(U))], map[],
                           [Statement(true, [0], {Whole(OBJECT), Member(OBJECT, Some(X), Read(Some(LEAF)))})],
                           map[], {}, map[], false, true, true, false);
    var barrel := Module(true, [], map[], map[], [], map[U := NAMESPACE], {U}, map[], false, true, true, false);
    var leaf := Module(true, [], map[], map[X := LEAF], [], map[X := LEAF], {X}, map[], true, false, true, false);
    Context([consumer, barrel, leaf], {}, {}, {}, {}, {OBJECT}, {}, {}, {}, {2}, map[(0, LEAF) := {ModuleInit(2)}],
            map[], true)
  }

  /** A member read of a binding that is also taken whole is not looked at: here the binding stands for a
      namespace that leads to nothing, and the member that is read is not demanded. */
  lemma TakenWholeHidesMember()
    ensures var c := WholeAndMember();
      && c.Valid() && IsTakenWhole(c, 0, OBJECT) && ReadsMember(c, 0, 1, OBJECT, LEAF)
      && c.TargetsOf(0, LEAF) == {ModuleInit(2)} && c.Demand(0, 0) == {}
  {
    var c := WholeAndMember();
    assert Refers(c, 0, Member(OBJECT, Some(X), Read(Some(LEAF)))) by {
      assert Member(OBJECT, Some(X), Read(Some(LEAF))) in c.modules[0].statements[0].references;
    }
    assert c.Valid();
    assert !HasLiveInit(c, 1);
    forall t ensures t !in c.Demand(0, 0) {
      DemandIff(c, 0, 0, t);
      assert forall s :: Needs(c, 0, 0, 1, s) ==> s == NAMESPACE;
    }
  }

  // ---- The records that count, and what they emit -----------------------------------------

  ghost predicate IsInIncludedStatement(c: Context, m: nat, r: nat)
    requires m < |c.modules|
  {
    exists i | 0 <= i < |c.modules[m].statements| ::
      c.modules[m].statements[i].included && r in c.modules[m].statements[i].records
  }

  /** The records a module emits for: the static imports of its included statements, unless others emit
      for them or for the whole module. */
  lemma ObligationIff(c: Context, m: nat, r: nat)
    requires c.Valid() && m < |c.modules|
    ensures c.IsObligation(m, r) <==>
      && c.modules[m].normal && r < |c.modules[m].records| && c.modules[m].records[r].isImport
      && IsInIncludedStatement(c, m, r)
      && m !in c.localRoutes + c.transparent && (m, r) !in c.localRecords + c.nested
  {
    if c.IsObligation(m, r) {
      assert c.IsRecord(m, r);
    }
    if IsInIncludedStatement(c, m, r) && r < |c.modules[m].records| && c.modules[m].records[r].isImport {
      assert c.Emits(m, r, true) <==>
             m !in c.localRoutes + c.transparent && (m, r) !in c.localRecords + c.nested;
    }
  }

  /** A record emits its whole demand unless its importee is an unwrapped module of the same chunk. */
  lemma EmitsOwnDemand(c: Context, m: nat, r: nat, f: nat, visited: set<nat>)
    requires c.Valid() && c.IsRecord(m, r) && c.modules[m].records[r].importee == Some(f)
    requires c.modules[f].wrapped || !c.modules[f].plainKind || !c.modules[f].included || f !in c.ownsInit
    ensures Collect(c, m, r, visited) == (c.Demand(m, r), visited)
  {
  }

  /** Such a module is left to call everything: always off strict mode, and in strict mode if each of its
      static imports is in an included statement, and none is nested or local to its consumers. */
  lemma LeavesAllToForwarder(c: Context, m: nat, r: nat, f: nat, visited: set<nat>)
    requires c.Valid() && c.IsRecord(m, r) && c.modules[m].records[r].importee == Some(f)
    requires !c.modules[f].wrapped && c.modules[f].plainKind && c.modules[f].included && f in c.ownsInit
    requires c.strict && c.modules[f].normal ==>
      forall i, x | 0 <= i < |c.modules[f].statements| && x in c.modules[f].statements[i].records
          && x < |c.modules[f].records| && c.modules[f].records[x].isImport ::
        c.modules[f].statements[i].included && (f, x) !in c.nested + c.localRecords
    ensures Collect(c, m, r, visited) == ({}, visited)
  {
    if c.strict && c.modules[f].normal {
      assert c.ValidModule(f);
      forall i, x | 0 <= i < |c.modules[f].statements| && x in c.modules[f].statements[i].records
        ensures c.Discharges(f, x, c.modules[f].statements[i].included)
      {
        assert (f, x) in c.nested || (f, x) in c.localRecords ==> (f, x) in c.nested + c.localRecords;
      }
      assert c.DischargesOwnHops(f);
    }
  }

  /** Otherwise, in strict mode, the record emits what it demands except for what the module is credited with;
      a module that was met before, on the way round a cycle, is credited with nothing. */
  lemma SharesWithForwarder(c: Context, m: nat, r: nat, f: nat, visited: set<nat>, i: nat, x: nat)
    requires c.Valid() && c.IsRecord(m, r) && c.modules[m].records[r].importee == Some(f) && c.strict
    requires !c.modules[f].wrapped && c.modules[f].plainKind && c.modules[f].included && f in c.ownsInit
    requires c.modules[f].normal && i < |c.modules[f].statements| && x in c.modules[f].statements[i].records
    requires c.modules[f].records[x].isImport
    requires !c.modules[f].statements[i].included || (f, x) in c.nested + c.localRecords
    ensures Collect(c, m, r, visited).0 == c.Demand(m, r) - Discharged(c, f, visited).0
    ensures f in visited ==> Collect(c, m, r, visited) == (c.Demand(m, r), visited)
  {
    assert !c.Discharges(f, x, c.modules[f].statements[i].included);
    assert !c.DischargesOwnHops(f);
    assert c.Demand(m, r) == c.RoutedTargets(m, r, f) && c.Demand(m, r) - {} == c.Demand(m, r);
  }
}
