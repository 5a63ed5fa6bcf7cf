/** What delegation covers: exactly when a demanded target is emitted, and when chains of re-exports carry it. */
module InitCoverage {
  import opened InitDelegation
  import opened InitTargets
  import opened Wrappers

  // ---- Linking and the forwarder graph ----------------------------------------------------

  /** The targets export `n` of `f` stands for, seen through `f`'s own import of it. */
  ghost function Exposed(c: Context, f: nat, n: Name): set<Target>
    requires c.Valid() && f < |c.modules|
  {
    var route := c.ExportRecord(f, n);
    if route.None? || c.Importee(f, route.value).None? then {}
    else
      var g := c.Importee(f, route.value).value;
      {ModuleInit(g)} +
      if IsNamedRoute(c, f, n) then
        match c.modules[f].imports[c.modules[f].namedExports[n]].imported
        case Star => SurfaceTargets(c, f, g)
        case Literal(x) => ExportTargets(c, f, g, x)
      else ExportTargets(c, f, g, n)
  }

  ghost function ExportTargets(c: Context, m: nat, g: nat, n: Name): set<Target>
    requires g < |c.modules|
  {
    if n in c.modules[g].exports then c.TargetsOf(m, c.modules[g].exports[n]) else {}
  }

  ghost function SurfaceTargets(c: Context, m: nat, g: nat): set<Target>
    requires c.Valid() && g < |c.modules|
  {
    set n, t | n in c.modules[g].visible && t in ExportTargets(c, m, g, n) :: t
  }

  /** The record behind an export is a static import that some statement carries: an import of the
      binding, or an `export *`. */
  ghost predicate RouteIsImport(c: Context, f: nat, n: Name)
    requires c.Valid() && f < |c.modules|
  {
    c.ExportRecord(f, n).Some? ==>
      var r := c.ExportRecord(f, n).value;
      && c.modules[f].normal && c.modules[f].records[r].isImport
      && (exists i | 0 <= i < |c.modules[f].statements| :: r in c.modules[f].statements[i].records)
      && (c.modules[f].records[r].isStar <==> !IsNamedRoute(c, f, n))
  }

  predicate IsNamedRoute(c: Context, f: nat, n: Name)
    requires f < |c.modules|
  {
    n in c.modules[f].namedExports && c.modules[f].namedExports[n] in c.modules[f].imports
  }

  /** A name that comes through an `export *` is ambiguous neither at the forwarder nor at its source.
      Ambiguous names stay in `starRecord`, but no importer can resolve a binding to one. */
  ghost predicate RouteIsVisible(c: Context, f: nat, n: Name)
    requires c.Valid() && f < |c.modules|
  {
    c.ExportRecord(f, n).Some? && !IsNamedRoute(c, f, n) ==>
      && n in c.modules[f].visible
      && var g := c.Importee(f, c.ExportRecord(f, n).value);
         g.Some? ==> n in c.modules[g.value].visible
  }

  /** A symbol only leads to initializers that may be called. */
  ghost predicate TargetsAreWrappers(c: Context)
    requires c.Valid()
  {
    forall m: nat, s, g: nat | ModuleInit(g) in c.TargetsOf(m, s) ::
      g < |c.modules| && c.WrapperIsReachable(g) && g !in c.transparent
  }

  /** Some symbol leads to the target. */
  ghost predicate IsTarget(c: Context, t: Target) {
    exists m, s :: t in c.TargetsOf(m, s)
  }

  /** The module that export `n` of `f` comes from. */
  ghost function Source(c: Context, f: nat, n: Name): Option<nat>
    requires c.Valid() && f < |c.modules|
  {
    var route := c.ExportRecord(f, n);
    if route.None? then None else c.Importee(f, route.value)
  }

  /** Export `n` of `f` gives access to export `x` of its source: the same binding, or a member of the
      namespace that is re-exported. */
  ghost predicate HandsOn(c: Context, f: nat, n: Name, x: Name)
    requires c.Valid() && f < |c.modules|
  {
    && Source(c, f, n).Some?
    && if IsNamedRoute(c, f, n) then
         match c.modules[f].imports[c.modules[f].namedExports[n]].imported
         case Star => x in c.modules[Source(c, f, n).value].visible
         case Literal(y) => x == y
       else x == n
  }

  /** Export `n` of `f` leads to the target: its source does by what it exports directly, or by one
      of the exports handed on, and so on over at most `depth` further modules. A statically resolved
      member chain follows namespaces that way. */
  ghost predicate Leads(c: Context, f: nat, n: Name, t: Target, depth: nat)
    requires c.Valid() && f < |c.modules|
    decreases depth
  {
    && RouteIsVisible(c, f, n)
    && (|| t in Exposed(c, f, n)
        || (depth > 0 && exists x {:trigger HandsOn(c, f, n, x)} ::
              HandsOn(c, f, n, x) && Leads(c, Source(c, f, n).value, x, t, depth - 1)))
  }

  ghost predicate RouteIsObligation(c: Context, f: nat, n: Name)
    requires c.Valid() && f < |c.modules|
  {
    c.ExportRecord(f, n).Some? && c.IsObligation(f, c.ExportRecord(f, n).value)
  }

  /** The same chain when each of its records is an obligation of its module: up to the module that
      has the target one hop away, or to a wrapped module whose own initializer is asked for. */
  ghost predicate IsCarried(c: Context, f: nat, n: Name, t: Target, depth: nat)
    requires c.Valid() && f < |c.modules|
    decreases depth
  {
    && RouteIsVisible(c, f, n) && RouteIsImport(c, f, n) && RouteIsObligation(c, f, n)
    && (|| t in Exposed(c, f, n)
        || (depth > 0 && exists x {:trigger HandsOn(c, f, n, x)} ::
              && HandsOn(c, f, n, x)
              && var g := Source(c, f, n).value;
                 if c.IsEagerForwarder(g) then IsCarried(c, g, x, t, depth - 1)
                 else Leads(c, g, x, t, depth - 1) && AsksForWrapper(c, f, n, g)))
  }

  lemma LeadsHere(c: Context, f: nat, n: Name, t: Target, depth: nat)
    requires c.Valid() && f < |c.modules| && RouteIsVisible(c, f, n) && t in Exposed(c, f, n)
    ensures Leads(c, f, n, t, depth)
  {
  }

  lemma LeadsFurther(c: Context, f: nat, n: Name, g: nat, x: Name, t: Target, depth: nat)
    requires c.Valid() && f < |c.modules| && RouteIsVisible(c, f, n)
    requires HandsOn(c, f, n, x) && Source(c, f, n) == Some(g) && Leads(c, g, x, t, depth)
    ensures Leads(c, f, n, t, depth + 1)
  {
  }

  lemma CarriedHere(c: Context, f: nat, n: Name, t: Target, depth: nat)
    requires c.Valid() && f < |c.modules| && RouteIsVisible(c, f, n) && RouteIsImport(c, f, n)
    requires RouteIsObligation(c, f, n) && t in Exposed(c, f, n)
    ensures IsCarried(c, f, n, t, depth)
  {
  }

  lemma CarriedFurther(c: Context, f: nat, n: Name, g: nat, x: Name, t: Target, depth: nat)
    requires c.Valid() && f < |c.modules| && RouteIsVisible(c, f, n) && RouteIsImport(c, f, n)
    requires RouteIsObligation(c, f, n) && HandsOn(c, f, n, x) && Source(c, f, n) == Some(g)
    requires c.IsEagerForwarder(g) && IsCarried(c, g, x, t, depth)
    ensures IsCarried(c, f, n, t, depth + 1)
  {
  }

  ghost predicate AsksForWrapper(c: Context, f: nat, n: Name, g: nat)
    requires c.Valid() && f < |c.modules| && g < |c.modules|
  {
    && c.ExportRecord(f, n).Some? && c.WrapperIsReachable(g)
    && ModuleInit(g) in c.Demand(f, c.ExportRecord(f, n).value)
  }

  ghost predicate Hop(c: Context, m: nat, f: nat)
    requires c.Valid()
  {
    && m < |c.modules| && f < |c.modules| && c.IsEagerForwarder(f)
    && exists r :: c.IsObligation(m, r) && c.Importee(m, r) == Some(f)
  }

  /** A set of modules that no hop leaves, such as what one importer reaches. */
  ghost predicate IsScope(c: Context, scope: set<nat>)
    requires c.Valid()
  {
    forall m, f | m in scope && Hop(c, m, f) :: f in scope
  }

  /** `rank` falls along every hop between two eager forwarders in the scope. */
  ghost predicate Acyclic(c: Context, scope: set<nat>, rank: nat -> nat)
    requires c.Valid()
  {
    forall m, f | m in scope && Hop(c, m, f) && c.IsEagerForwarder(m) :: rank(f) < rank(m)
  }

  ghost predicate HopPath(c: Context, path: seq<nat>)
    requires c.Valid()
  {
    |path| > 0 && forall i {:trigger HopAt(c, path, i)} | 0 < i < |path| :: HopAt(c, path, i)
  }

  ghost predicate HopAt(c: Context, path: seq<nat>, i: nat)
    requires c.Valid() && 0 < i < |path|
  {
    Hop(c, path[i - 1], path[i])
  }

  // ---- Coverage ---------------------------------------------------------------------------

  ghost predicate IsEmitted(c: Context, m: nat, t: Target)
    requires c.Valid()
  {
    m < |c.modules| && exists r :: c.IsObligation(m, r) && t in Collect(c, m, r, {}).0
  }

  /** `g` has its own initializer, and one of its exports leads to `t`. */
  ghost predicate IsBehind(c: Context, g: nat, t: Target)
    requires c.Valid()
  {
    g < |c.modules| && c.WrapperIsReachable(g) && IsTarget(c, t) && exists n :: StandsFor(c, g, n, t)
  }

  ghost predicate StandsFor(c: Context, g: nat, n: Name, t: Target)
    requires c.Valid() && g < |c.modules|
  {
    || (n in c.modules[g].exports && exists m :: t in c.TargetsOf(m, c.modules[g].exports[n]))
    || exists depth: nat :: Leads(c, g, n, t, depth)
  }

  ghost predicate IsProvided(c: Context, m: nat, t: Target)
    requires c.Valid()
  {
    IsEmitted(c, m, t) || exists g :: IsBehind(c, g, t) && CallsImportee(c, m, g)
  }

  /** An obligation emits the initializer of the very module it imports. */
  ghost predicate CallsImportee(c: Context, m: nat, g: nat)
    requires c.Valid()
  {
    && m < |c.modules| && g < |c.modules|
    && exists r :: c.IsObligation(m, r) && c.Importee(m, r) == Some(g) && ModuleInit(g) in Collect(c, m, r, {}).0
  }

  /** The module, or an eager forwarder it can reach over obligations, emits the target. */
  ghost predicate EmitsAlong(c: Context, m: nat, t: Target)
    requires c.Valid()
  {
    exists path :: HopPath(c, path) && path[0] == m && EndsAtEmitter(c, path, t)
  }

  ghost predicate EndsAtEmitter(c: Context, path: seq<nat>, t: Target)
    requires c.Valid() && |path| > 0
  {
    IsEmitted(c, path[|path| - 1], t)
  }

  /** One of these emits the target, or the initializer of a wrapped module in front of it. */
  ghost predicate IsCovered(c: Context, m: nat, t: Target)
    requires c.Valid()
  {
    exists path :: HopPath(c, path) && path[0] == m && EndsAtProvider(c, path, t)
  }

  ghost predicate EndsAtProvider(c: Context, path: seq<nat>, t: Target)
    requires c.Valid() && |path| > 0
  {
    IsProvided(c, path[|path| - 1], t)
  }

  // ---- Paths of hops ----------------------------------------------------------------------

  lemma LongerPath(c: Context, m: nat, path: seq<nat>)
    requires c.Valid() && HopPath(c, path) && Hop(c, m, path[0])
    ensures HopPath(c, [m] + path)
  {
    var longer := [m] + path;
    forall i {:trigger HopAt(c, longer, i)} | 0 < i < |longer| ensures HopAt(c, longer, i) {
      if i > 1 {
        assert HopAt(c, path, i - 1);
      }
    }
  }

  lemma StepBack(c: Context, m: nat, f: nat, t: Target)
    requires c.Valid() && Hop(c, m, f) && IsCovered(c, f, t)
    ensures IsCovered(c, m, t)
  {
    var path :| HopPath(c, path) && path[0] == f && EndsAtProvider(c, path, t);
    LongerPath(c, m, path);
    SameEnd(c, m, path, t);
    PathCovers(c, [m] + path, t);
  }

  lemma PathCovers(c: Context, path: seq<nat>, t: Target)
    requires c.Valid() && HopPath(c, path) && EndsAtProvider(c, path, t)
    ensures IsCovered(c, path[0], t)
  {
  }

  lemma SameEnd(c: Context, m: nat, path: seq<nat>, t: Target)
    requires c.Valid() && |path| > 0 && EndsAtProvider(c, path, t)
    ensures EndsAtProvider(c, [m] + path, t)
  {
    assert ([m] + path)[|path|] == path[|path| - 1];
  }

  lemma SameEmitter(c: Context, m: nat, path: seq<nat>, t: Target)
    requires c.Valid() && |path| > 0 && EndsAtEmitter(c, path, t)
    ensures EndsAtEmitter(c, [m] + path, t)
  {
    assert ([m] + path)[|path|] == path[|path| - 1];
  }

  lemma PathEmits(c: Context, path: seq<nat>, t: Target)
    requires c.Valid() && HopPath(c, path) && EndsAtEmitter(c, path, t)
    ensures EmitsAlong(c, path[0], t)
  {
  }

  lemma EmitStepBack(c: Context, m: nat, f: nat, t: Target)
    requires c.Valid() && Hop(c, m, f) && EmitsAlong(c, f, t)
    ensures EmitsAlong(c, m, t)
  {
    var path :| HopPath(c, path) && path[0] == f && EndsAtEmitter(c, path, t);
    LongerPath(c, m, path);
    SameEmitter(c, m, path, t);
    PathEmits(c, [m] + path, t);
  }

  lemma CoveredHere(c: Context, m: nat, t: Target)
    requires c.Valid() && IsProvided(c, m, t)
    ensures IsCovered(c, m, t)
  {
    assert HopPath(c, [m]) && EndsAtProvider(c, [m], t);
  }

  lemma EmittedHere(c: Context, m: nat, t: Target)
    requires c.Valid() && IsEmitted(c, m, t)
    ensures EmitsAlong(c, m, t)
  {
    assert HopPath(c, [m]) && EndsAtEmitter(c, [m], t);
  }

  lemma EmittedIsCovered(c: Context, m: nat, t: Target)
    requires c.Valid() && EmitsAlong(c, m, t)
    ensures IsCovered(c, m, t)
  {
    var path :| HopPath(c, path) && path[0] == m && EndsAtEmitter(c, path, t);
    assert EndsAtProvider(c, path, t);
  }

  lemma Front(c: Context, path: seq<nat>)
    requires c.Valid() && HopPath(c, path) && |path| > 1
    ensures HopPath(c, path[1..]) && Hop(c, path[0], path[1])
  {
    var rest := path[1..];
    forall i {:trigger HopAt(c, rest, i)} | 0 < i < |rest| ensures HopAt(c, rest, i) {
      assert HopAt(c, path, i + 1);
    }
    assert HopAt(c, path, 1);
  }

  // ---- Exactly when a target is emitted ---------------------------------------------------

  /** An obligation of the module demands the target and is not let off. */
  ghost predicate Settles(c: Context, e: nat, t: Target)
    requires c.Valid()
  {
    e < |c.modules| && exists r :: c.IsObligation(e, r) && t in c.Demand(e, r) && !IsLetOff(c, e, r)
  }

  ghost predicate SettlesAlong(c: Context, m: nat, t: Target)
    requires c.Valid()
  {
    exists path :: HopPath(c, path) && path[0] == m && EndsAtSettler(c, path, t)
  }

  ghost predicate EndsAtSettler(c: Context, path: seq<nat>, t: Target)
    requires c.Valid() && |path| > 0
  {
    Settles(c, path[|path| - 1], t)
  }

  lemma EmittedIsSettled(c: Context, m: nat, t: Target)
    requires c.Valid() && c.strict && IsEmitted(c, m, t)
    ensures Settles(c, m, t)
  {
    var r :| c.IsObligation(m, r) && t in Collect(c, m, r, {}).0;
    EmitsOnlyWhatIsDemanded(c, m, r, {});
  }

  /** A demand that is not let off is emitted on the spot, or by a forwarder that is credited with it. */
  lemma {:induction false} SettledIsEmitted(c: Context, scope: set<nat>, rank: nat -> nat, m: nat, t: Target)
    requires c.Valid() && c.strict && IsScope(c, scope) && Acyclic(c, scope, rank) && m in scope && Settles(c, m, t)
    ensures EmitsAlong(c, m, t)
    decreases if m < |c.modules| && c.IsEagerForwarder(m) then 0 else 1, rank(m)
  {
    var r :| c.IsObligation(m, r) && t in c.Demand(m, r) && !IsLetOff(c, m, r);
    var f := c.Importee(m, r).value;
    if !c.IsEagerForwarder(f) {
      NoForwarderNoDelegation(c, m, r);
      EmittedHere(c, m, t);
    } else if t in Collect(c, m, r, {}).0 {
      EmittedHere(c, m, t);
    } else {
      assert t in Discharged(c, f, {}).0;
      var r' := DischargedIsDemanded(c, f, c.Obligations(f, 0), {} + {f}, t);
      assert Hop(c, m, f) && Settles(c, f, t);
      SettledIsEmitted(c, scope, rank, f, t);
      EmitStepBack(c, m, f, t);
    }
  }

  lemma {:induction false} SettledFarAwayIsEmitted(
      c: Context, scope: set<nat>, rank: nat -> nat, path: seq<nat>, t: Target)
    requires c.Valid() && c.strict && IsScope(c, scope) && Acyclic(c, scope, rank)
    requires HopPath(c, path) && path[0] in scope && EndsAtSettler(c, path, t)
    ensures EmitsAlong(c, path[0], t)
    decreases |path|
  {
    if |path| == 1 {
      SettledIsEmitted(c, scope, rank, path[0], t);
    } else {
      Front(c, path);
      assert EndsAtSettler(c, path[1..], t);
      SettledFarAwayIsEmitted(c, scope, rank, path[1..], t);
      EmitStepBack(c, path[0], path[1], t);
    }
  }

  /** The exact condition, whatever the linking: some call to the target is emitted by the importer or
      by a forwarder it reaches over obligations, if and only if one of them has an obligation that
      demands it and is not let off by the early-out. */
  lemma EmittedIffSettled(c: Context, scope: set<nat>, rank: nat -> nat, m: nat, t: Target)
    requires c.Valid() && c.strict && IsScope(c, scope) && Acyclic(c, scope, rank) && m in scope
    ensures EmitsAlong(c, m, t) <==> SettlesAlong(c, m, t)
  {
    if EmitsAlong(c, m, t) {
      var path :| HopPath(c, path) && path[0] == m && EndsAtEmitter(c, path, t);
      EmittedIsSettled(c, path[|path| - 1], t);
      assert EndsAtSettler(c, path, t);
    }
    if SettlesAlong(c, m, t) {
      var path :| HopPath(c, path) && path[0] == m && EndsAtSettler(c, path, t);
      SettledFarAwayIsEmitted(c, scope, rank, path, t);
    }
  }

  /** An obligation imports the module and demands its own initializer. */
  ghost predicate AsksWrapper(c: Context, e: nat, g: nat)
    requires c.Valid()
  {
    && e < |c.modules| && g < |c.modules|
    && exists r :: c.IsObligation(e, r) && c.Importee(e, r) == Some(g) && ModuleInit(g) in c.Demand(e, r)
  }

  ghost predicate IsSettled(c: Context, e: nat, t: Target)
    requires c.Valid()
  {
    Settles(c, e, t) || exists g: nat :: IsBehind(c, g, t) && AsksWrapper(c, e, g)
  }

  ghost predicate EndsSettled(c: Context, path: seq<nat>, t: Target)
    requires c.Valid() && |path| > 0
  {
    IsSettled(c, path[|path| - 1], t)
  }

  ghost predicate IsSettledAlong(c: Context, m: nat, t: Target)
    requires c.Valid()
  {
    exists path :: HopPath(c, path) && path[0] == m && EndsSettled(c, path, t)
  }

  lemma CalledIsAsked(c: Context, e: nat, g: nat)
    requires c.Valid() && CallsImportee(c, e, g)
    ensures AsksWrapper(c, e, g)
  {
    forall r | c.IsObligation(e, r) ensures Collect(c, e, r, {}).0 <= c.Demand(e, r) {
      EmitsOnlyWhatIsDemanded(c, e, r, {});
    }
  }

  lemma ProvidedIsSettled(c: Context, e: nat, t: Target)
    requires c.Valid() && c.strict && IsProvided(c, e, t)
    ensures IsSettled(c, e, t)
  {
    if IsEmitted(c, e, t) {
      EmittedIsSettled(c, e, t);
    } else {
      var g: nat :| IsBehind(c, g, t) && CallsImportee(c, e, g);
      CalledIsAsked(c, e, g);
      assert AsksWrapper(c, e, g);
    }
  }

  lemma AskedWrapperIsCalled(c: Context, e: nat, g: nat, t: Target)
    requires c.Valid() && IsBehind(c, g, t) && AsksWrapper(c, e, g)
    ensures IsProvided(c, e, t)
  {
    var r :| c.IsObligation(e, r) && c.Importee(e, r) == Some(g) && ModuleInit(g) in c.Demand(e, r);
    NoForwarderNoDelegation(c, e, r);
    assert CallsImportee(c, e, g);
  }

  /** The same for coverage, where a call to a wrapped module in front of the target also counts. */
  lemma CoveredIffSettled(c: Context, scope: set<nat>, rank: nat -> nat, m: nat, t: Target)
    requires c.Valid() && c.strict && IsScope(c, scope) && Acyclic(c, scope, rank) && m in scope
    ensures IsCovered(c, m, t) <==> IsSettledAlong(c, m, t)
  {
    if IsCovered(c, m, t) {
      var path :| HopPath(c, path) && path[0] == m && EndsAtProvider(c, path, t);
      ProvidedIsSettled(c, path[|path| - 1], t);
      assert EndsSettled(c, path, t);
    }
    if IsSettledAlong(c, m, t) {
      var path :| HopPath(c, path) && path[0] == m && EndsSettled(c, path, t);
      SettledPathCovers(c, scope, rank, path, t);
    }
  }

  lemma SettledPathCovers(c: Context, scope: set<nat>, rank: nat -> nat, path: seq<nat>, t: Target)
    requires c.Valid() && c.strict && IsScope(c, scope) && Acyclic(c, scope, rank)
    requires HopPath(c, path) && path[0] in scope && EndsSettled(c, path, t)
    ensures IsCovered(c, path[0], t)
  {
    var e := path[|path| - 1];
    if Settles(c, e, t) {
      assert EndsAtSettler(c, path, t);
      SettledFarAwayIsEmitted(c, scope, rank, path, t);
      EmittedIsCovered(c, path[0], t);
    } else {
      var g: nat :| IsBehind(c, g, t) && AsksWrapper(c, e, g);
      AskedWrapperIsCalled(c, e, g, t);
      assert EndsAtProvider(c, path, t);
      PathCovers(c, path, t);
    }
  }

  // ---- Chains of re-exports ---------------------------------------------------------------

  /** What an export has one hop away is demanded by the exporter's own record for it, unless that
      record asks for a wrapper in front of it. */
  lemma RouteDemands(c: Context, f: nat, n: Name, t: Target)
    requires c.Valid() && TargetsAreWrappers(c) && f < |c.modules| && RouteIsImport(c, f, n)
    requires RouteIsVisible(c, f, n) && t in Exposed(c, f, n) && IsTarget(c, t)
    ensures var r := c.ExportRecord(f, n).value; var g := c.Importee(f, r).value;
      t in c.Demand(f, r) || (IsBehind(c, g, t) && ModuleInit(g) in c.Demand(f, r))
  {
    var r := c.ExportRecord(f, n).value;
    var g := c.Importee(f, r).value;
    assert c.IsRecord(f, r);
    if t == ModuleInit(g) {
    } else if IsNamedRoute(c, f, n) {
      var l := c.modules[f].namedExports[n];
      assert c.ReexportsBinding(f, l) && c.IsOpaque(f, l);
      match c.modules[f].imports[l].imported
      case Star =>
        var x :| x in c.modules[g].visible && t in ExportTargets(c, f, g, x);
        NameDemands(c, f, r, g, l, x, t);
      case Literal(x) =>
        NameDemands(c, f, r, g, l, x, t);
    } else {
      var s := c.modules[g].exports[n];
      if !c.StopsAtWrapper(f, r, g) && !c.SkipsName(g, n) {
        assert s in c.DemandedSymbols(f, r, g);
      } else {
        NameIsBehind(c, f, g, n, t);
      }
    }
  }

  lemma NameIsBehind(c: Context, m: nat, g: nat, x: Name, t: Target)
    requires c.Valid() && g < |c.modules| && c.WrapperIsReachable(g) && t in ExportTargets(c, m, g, x)
    ensures IsBehind(c, g, t)
  {
    assert StandsFor(c, g, x, t);
  }

  lemma NameDemands(c: Context, f: nat, r: nat, g: nat, l: Symbol, x: Name, t: Target)
    requires c.Valid() && c.IsRecord(f, r) && c.Importee(f, r) == Some(g) && !c.modules[f].records[r].isStar
    requires l in c.modules[f].imports && c.modules[f].imports[l].record == r && c.IsOpaque(f, l)
    requires c.modules[f].imports[l].imported == Literal(x)
        || (c.modules[f].imports[l].imported.Star? && x in c.modules[g].visible)
    requires t in ExportTargets(c, f, g, x)
    ensures t in c.Demand(f, r) || (IsBehind(c, g, t) && ModuleInit(g) in c.Demand(f, r))
  {
    var s := c.modules[g].exports[x];
    if !c.StopsAtWrapper(f, r, g) && !c.SkipsName(g, x) {
      assert s in c.WholeBinding(f, g, l);
      assert s in c.BindingSymbols(f, g, l);
      assert s in c.DemandedSymbols(f, r, g);
    } else {
      NameIsBehind(c, f, g, x, t);
    }
  }

  lemma OwnHopIsObligation(c: Context, f: nat, n: Name)
    requires c.Valid() && f < |c.modules| && c.IsEagerForwarder(f) && c.DischargesOwnHops(f)
    requires c.ExportRecord(f, n).Some? && RouteIsImport(c, f, n)
    ensures RouteIsObligation(c, f, n)
  {
    var r := c.ExportRecord(f, n).value;
    var i :| 0 <= i < |c.modules[f].statements| && r in c.modules[f].statements[i].records;
    assert c.Discharges(f, r, c.modules[f].statements[i].included);
    assert c.Emits(f, r, c.modules[f].statements[i].included);
  }

  /** Every delegation of the target that the early-out makes in the scope relies on a carried chain. */
  ghost predicate DelegationsAreCarried(c: Context, scope: set<nat>, t: Target)
    requires c.Valid()
  {
    forall m, r {:trigger DelegationIsCarried(c, m, r, t)} | m in scope :: DelegationIsCarried(c, m, r, t)
  }

  ghost predicate DelegationIsCarried(c: Context, m: nat, r: nat, t: Target)
    requires c.Valid()
  {
    m < |c.modules| && c.IsObligation(m, r) && t in c.Demand(m, r) && IsLetOff(c, m, r) ==>
      exists n, depth: nat :: IsCarried(c, c.Importee(m, r).value, n, t, depth)
  }

  ghost predicate InScope(c: Context, scope: set<nat>, rank: nat -> nat, t: Target) {
    && c.Valid() && c.strict && TargetsAreWrappers(c)
    && IsScope(c, scope) && Acyclic(c, scope, rank) && DelegationsAreCarried(c, scope, t)
  }

  /** The target of a demand that is let off comes from a symbol. */
  lemma LetOffTarget(c: Context, m: nat, r: nat, t: Target)
    requires c.Valid() && c.IsRecord(m, r) && IsLetOff(c, m, r) && t in c.Demand(m, r)
    ensures IsTarget(c, t)
  {
    var f := c.Importee(m, r).value;
    assert t in c.RoutedTargets(m, r, f);
  }

  /** In strict mode, a carried delegation loses no initialization: every target that an obligation
      demands is emitted by the importer or by an eager forwarder it can reach over obligations, or
      lies behind a wrapper whose own `init_*` one of them emits. */
  lemma {:induction false} DelegationLosesNothing(
      c: Context, scope: set<nat>, rank: nat -> nat, m: nat, r: nat, t: Target)
    requires InScope(c, scope, rank, t) && m in scope
    requires m < |c.modules| && c.IsObligation(m, r) && t in c.Demand(m, r)
    ensures IsCovered(c, m, t)
    decreases if c.IsEagerForwarder(m) then 0 else 1, rank(m), 0, 0
  {
    if IsLetOff(c, m, r) {
      var f := c.Importee(m, r).value;
      assert DelegationIsCarried(c, m, r, t);
      var n, depth: nat :| IsCarried(c, f, n, t, depth);
      LetOffTarget(c, m, r, t);
      assert Hop(c, m, f);
      CarriedIsCovered(c, scope, rank, f, n, t, depth);
      StepBack(c, m, f, t);
    } else {
      SettledIsEmitted(c, scope, rank, m, t);
      EmittedIsCovered(c, m, t);
    }
  }

  /** A carried chain ends in a call: its first module covers the target. */
  lemma {:induction false} CarriedIsCovered(
      c: Context, scope: set<nat>, rank: nat -> nat, f: nat, n: Name, t: Target, depth: nat)
    requires InScope(c, scope, rank, t) && f in scope && f < |c.modules|
    requires IsCarried(c, f, n, t, depth) && IsTarget(c, t)
    ensures IsCovered(c, f, t)
    decreases if c.IsEagerForwarder(f) then 0 else 1, rank(f), 1, depth
  {
    var r := c.ExportRecord(f, n).value;
    var g := c.Importee(f, r).value;
    if t in Exposed(c, f, n) {
      RouteDemands(c, f, n, t);
      if t in c.Demand(f, r) {
        DelegationLosesNothing(c, scope, rank, f, r, t);
      } else {
        WrapperIsCalled(c, f, r, g, t);
      }
    } else {
      var x :| HandsOn(c, f, n, x) &&
        if c.IsEagerForwarder(g) then IsCarried(c, g, x, t, depth - 1)
        else Leads(c, g, x, t, depth - 1) && AsksForWrapper(c, f, n, g);
      if c.IsEagerForwarder(g) {
        assert Hop(c, f, g);
        CarriedIsCovered(c, scope, rank, g, x, t, depth - 1);
        StepBack(c, f, g, t);
      } else {
        assert StandsFor(c, g, x, t);
        WrapperIsCalled(c, f, r, g, t);
      }
    }
  }

  lemma WrapperIsCalled(c: Context, f: nat, r: nat, g: nat, t: Target)
    requires c.Valid() && f < |c.modules| && c.IsObligation(f, r) && c.Importee(f, r) == Some(g)
    requires IsBehind(c, g, t) && ModuleInit(g) in c.Demand(f, r)
    ensures IsCovered(c, f, t)
  {
    NoForwarderNoDelegation(c, f, r);
    assert CallsImportee(c, f, g);
    CoveredHere(c, f, t);
  }

  /** When no wrapper that is called in the scope stands in front of the target, one of the modules
      emits it outright. */
  lemma UnshadowedTargetIsEmitted(c: Context, scope: set<nat>, rank: nat -> nat, m: nat, r: nat, t: Target)
    requires InScope(c, scope, rank, t) && m in scope
    requires m < |c.modules| && c.IsObligation(m, r) && t in c.Demand(m, r)
    requires forall e, g | e in scope && CallsImportee(c, e, g) && IsBehind(c, g, t) :: t == ModuleInit(g)
    ensures EmitsAlong(c, m, t)
  {
    DelegationLosesNothing(c, scope, rank, m, r, t);
    var path :| HopPath(c, path) && path[0] == m && EndsAtProvider(c, path, t);
    StaysInScope(c, scope, path);
    assert EndsAtEmitter(c, path, t);
  }

  lemma {:induction false} StaysInScope(c: Context, scope: set<nat>, path: seq<nat>)
    requires c.Valid() && IsScope(c, scope) && HopPath(c, path) && path[0] in scope
    ensures path[|path| - 1] in scope
    decreases |path|
  {
    if |path| > 1 {
      Front(c, path);
      StaysInScope(c, scope, path[1..]);
    }
  }

  // ---- Linking ----------------------------------------------------------------------------

  /** Consistent export linking: a target that is demanded through an eager forwarder is what one of
      the forwarder's exports leads to, over however many re-exports. */
  ghost predicate Linked(c: Context, scope: set<nat>, t: Target)
    requires c.Valid()
  {
    && (forall f, n | f in scope && 0 <= f < |c.modules| && c.IsEagerForwarder(f) :: RouteIsImport(c, f, n))
    && (forall m, r {:trigger DemandIsLinked(c, m, r, t)} | m in scope :: DemandIsLinked(c, m, r, t))
  }

  ghost predicate DemandIsLinked(c: Context, m: nat, r: nat, t: Target)
    requires c.Valid()
  {
    m < |c.modules| && c.IsObligation(m, r) && t in c.Demand(m, r) && c.Importee(m, r).Some?
    && c.IsEagerForwarder(c.Importee(m, r).value) ==>
      exists n, depth: nat :: Leads(c, c.Importee(m, r).value, n, t, depth)
  }

  /** Each further hop of a chain that leads to the target is an obligation of its module, or asks for
      the wrapper of the next one. */
  ghost predicate KeepsHops(c: Context, scope: set<nat>, t: Target)
    requires c.Valid()
  {
    forall f, n, x {:trigger KeepsHop(c, f, n, x, t)} | f in scope :: KeepsHop(c, f, n, x, t)
  }

  ghost predicate LeadsSomehow(c: Context, f: nat, n: Name, t: Target)
    requires c.Valid() && f < |c.modules|
  {
    exists depth: nat :: Leads(c, f, n, t, depth)
  }

  ghost predicate KeepsHop(c: Context, f: nat, n: Name, x: Name, t: Target)
    requires c.Valid()
  {
    && f < |c.modules| && RouteIsObligation(c, f, n) && t !in Exposed(c, f, n)
    && HandsOn(c, f, n, x) && LeadsSomehow(c, Source(c, f, n).value, x, t) ==>
      var g := Source(c, f, n).value;
      if c.IsEagerForwarder(g) then RouteIsObligation(c, g, x) else AsksForWrapper(c, f, n, g)
  }

  lemma LeadsHasRoute(c: Context, f: nat, n: Name, t: Target, depth: nat)
    requires c.Valid() && f < |c.modules| && Leads(c, f, n, t, depth)
    ensures c.ExportRecord(f, n).Some? && Source(c, f, n).Some?
  {
  }

  lemma {:induction false} KeptChainIsCarried(c: Context, scope: set<nat>, f: nat, n: Name, t: Target, depth: nat)
    requires c.Valid() && IsScope(c, scope) && Linked(c, scope, t) && KeepsHops(c, scope, t)
    requires f in scope && f < |c.modules| && c.IsEagerForwarder(f)
    requires Leads(c, f, n, t, depth) && RouteIsObligation(c, f, n)
    ensures IsCarried(c, f, n, t, depth)
    decreases depth
  {
    if t !in Exposed(c, f, n) {
      var g := Source(c, f, n).value;
      var x :| HandsOn(c, f, n, x) && Leads(c, g, x, t, depth - 1);
      assert LeadsSomehow(c, g, x, t) && KeepsHop(c, f, n, x, t);
      if c.IsEagerForwarder(g) {
        assert Hop(c, f, g);
        KeptChainIsCarried(c, scope, g, x, t, depth - 1);
      }
    }
  }

  /** With consistent linking, delegations are carried as soon as the chains keep their hops; the
      first hop always is kept, because the forwarder that lets the record off emits all its own. */
  lemma KeptHopsCarry(c: Context, scope: set<nat>, t: Target)
    requires c.Valid() && IsScope(c, scope) && Linked(c, scope, t) && KeepsHops(c, scope, t)
    ensures DelegationsAreCarried(c, scope, t)
  {
    forall m, r {:trigger DelegationIsCarried(c, m, r, t)} | m in scope ensures DelegationIsCarried(c, m, r, t) {
      if m < |c.modules| && c.IsObligation(m, r) && t in c.Demand(m, r) && IsLetOff(c, m, r) {
        var f := c.Importee(m, r).value;
        assert DemandIsLinked(c, m, r, t);
        var n, depth: nat :| Leads(c, f, n, t, depth);
        assert Hop(c, m, f);
        LeadsHasRoute(c, f, n, t, depth);
        OwnHopIsObligation(c, f, n);
        KeptChainIsCarried(c, scope, f, n, t, depth);
      }
    }
  }
}
