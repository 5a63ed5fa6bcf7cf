/** Which `init_*` calls an import record emits itself, and which it leaves to a same-chunk forwarder. */
module InitDelegation {
  import opened InitTargets
  import opened Sets
  import opened Wrappers

  datatype Symbol = Symbol(id: nat)

  datatype Name = Name(id: nat)

  datatype Imported = Star | Literal(name: Name)

  datatype Import = Import(record: nat, imported: Imported)

  /** `Read(Some(s))`: the member chain was resolved statically to the symbol `s`. */
  datatype Resolution = Unresolved | Read(symbol: Option<Symbol>)

  datatype Reference = Whole(symbol: Symbol) | Member(object_: Symbol, property: Option<Name>, resolution: Resolution)

  datatype Statement = Statement(included: bool, records: seq<nat>, references: set<Reference>)

  datatype Record = Record(isImport: bool, isStar: bool, importee: Option<nat>)

  type RecordKey = (nat, nat)

  /** One row of the module table together with its linking metadata. `wrapped` says that the module
      has an `init_*` target, `plainKind` that its own wrap kind is `None`. */
  datatype Module = Module(
    normal: bool,
    records: seq<Record>,
    imports: map<Symbol, Import>,
    namedExports: map<Name, Symbol>,
    statements: seq<Statement>,
    exports: map<Name, Symbol>,
    visible: set<Name>,
    starRecord: map<Name, nat>,
    wrapped: bool,
    plainKind: bool,
    included: bool,
    concatInner: bool)

  /** The tables that stay fixed while targets are collected. `symbolTargets` answers which targets a
      symbol leads to for one importer, `routeCarriers` which eager carriers a consumer-local route has. */
  datatype Context = Context(
    modules: seq<Module>,
    transparent: set<nat>,
    localRoutes: set<nat>,
    localRecords: set<RecordKey>,
    nested: set<RecordKey>,
    used: set<Symbol>,
    facades: set<Symbol>,
    inlined: set<Symbol>,
    ownsInit: set<nat>,
    reachable: set<nat>,
    symbolTargets: map<(nat, Symbol), set<Target>>,
    routeCarriers: map<nat, set<Target>>,
    strict: bool)
  {
    ghost predicate Valid() {
      && (forall m {:trigger modules[m]} | 0 <= m < |modules| :: ValidModule(m))
      && localRoutes <= transparent
      && (forall m | m in transparent :: m < |modules| && modules[m].wrapped)
    }

    ghost predicate ValidModule(m: nat)
      requires m < |modules|
    {
      && (forall r | 0 <= r < |modules[m].records| && modules[m].records[r].importee.Some? ::
            modules[m].records[r].importee.value < |modules|)
      && (forall l | l in modules[m].imports :: modules[m].imports[l].record < |modules[m].records|)
      && (forall n | n in modules[m].starRecord :: modules[m].starRecord[n] < |modules[m].records|)
      && (forall i, r | 0 <= i < |modules[m].statements| && r in modules[m].statements[i].records ::
          r < |modules[m].records|)
      && modules[m].visible <= modules[m].exports.Keys
    }

    predicate IsRecord(m: nat, r: nat) {
      m < |modules| && r < |modules[m].records|
    }

    function Importee(m: nat, r: nat): (f: Option<nat>)
      requires IsRecord(m, r)
    {
      modules[m].records[r].importee
    }

    function TargetsOf(m: nat, s: Symbol): set<Target> {
      if (m, s) in symbolTargets then symbolTargets[(m, s)] else {}
    }

    /** The module's own `init_*` exists and may be called. */
    predicate WrapperIsReachable(f: nat)
      requires f < |modules|
    {
      modules[f].wrapped && f in reachable && modules[f].included && !modules[f].concatInner
    }

    predicate RoutesRecords(f: nat) {
      exists key | key in localRecords :: key.0 == f
    }

    predicate OwnsNonRoutedInit(f: nat)
      requires f < |modules|
    {
      RoutesRecords(f) && WrapperIsReachable(f)
    }

    /** An unwrapped, included module that runs in the importer's own chunk. */
    predicate IsEagerForwarder(f: nat)
      requires f < |modules|
    {
      !modules[f].wrapped && modules[f].plainKind && modules[f].included && f in ownsInit
    }

    predicate ConsumesBindings(m: nat, r: nat)
      requires IsRecord(m, r)
    {
      modules[m].records[r].isStar || exists l | l in modules[m].imports :: modules[m].imports[l].record == r
    }

    predicate RoutesThrough(m: nat, r: nat, f: nat)
      requires IsRecord(m, r)
    {
      f in transparent && (ConsumesBindings(m, r) || f in localRoutes)
    }

    /** The record that an export of `f` comes through. */
    function ExportRecord(f: nat, n: Name): Option<nat>
      requires f < |modules|
    {
      if n in modules[f].namedExports && modules[f].namedExports[n] in modules[f].imports then
        Some(modules[f].imports[modules[f].namedExports[n]].record)
      else if n in modules[f].starRecord then Some(modules[f].starRecord[n])
      else None
    }

    predicate SkipsName(f: nat, n: Name)
      requires f < |modules|
    {
      OwnsNonRoutedInit(f) &&
      !(modules[f].normal && ExportRecord(f, n).Some? && (f, ExportRecord(f, n).value) in localRecords)
    }

    predicate ReexportsBinding(m: nat, l: Symbol)
      requires m < |modules|
    {
      exists n | n in modules[m].namedExports :: modules[m].namedExports[n] == l
    }

    // ---- The gate of an obligation --------------------------------------------------------

    predicate Emits(m: nat, r: nat, included: bool)
      requires IsRecord(m, r)
    {
      && modules[m].records[r].isImport
      && (m, r) !in localRecords
      && m !in localRoutes
      && included && m !in transparent && (m, r) !in nested
    }

    predicate Discharges(m: nat, r: nat, included: bool)
      requires IsRecord(m, r)
    {
      !modules[m].records[r].isImport || (included && (m, r) !in nested && (m, r) !in localRecords)
    }

    /** Every static import of the forwarder is emitted by its own finalized statements. */
    predicate DischargesOwnHops(f: nat)
      requires Valid() && f < |modules|
    {
      modules[f].normal ==>
        forall i {:trigger modules[f].statements[i]} | 0 <= i < |modules[f].statements| ::
          forall r | r in modules[f].statements[i].records :: Discharges(f, r, modules[f].statements[i].included)
    }

    /** The obligations among the records of the statements from `i` on, in statement order. */
    function Obligations(m: nat, i: nat): (s: seq<nat>)
      requires Valid() && m < |modules| && i <= |modules[m].statements|
      ensures forall r :: r in s <==>
        exists j | i <= j < |modules[m].statements| ::
            r in modules[m].statements[j].records && Emits(m, r, modules[m].statements[j].included)
      ensures forall r | r in s :: IsRecord(m, r)
      decreases |modules[m].statements| - i
    {
      if i == |modules[m].statements| then []
      else
        var statement := modules[m].statements[i];
        EmittedRecords(m, statement.records, statement.included) + Obligations(m, i + 1)
    }

    function EmittedRecords(m: nat, records: seq<nat>, included: bool): (s: seq<nat>)
      requires m < |modules| && forall r: nat | r in records :: r < |modules[m].records|
      ensures forall r: nat :: r in s <==> r in records && Emits(m, r, included)
    {
      if records == [] then []
      else
        assert records[0] in records && forall r: nat | r in records[1..] :: r in records;
        (if Emits(m, records[0], included) then [records[0]] else []) + EmittedRecords(m, records[1..], included)
    }

    ghost predicate IsObligation(m: nat, r: nat)
      requires Valid() && m < |modules|
    {
      modules[m].normal && r in Obligations(m, 0)
    }

    // ---- What a record demands ------------------------------------------------------------

    /** The names an `export *` record initializes: in strict mode only those it provides. */
    predicate StarProvides(m: nat, r: nat, n: Name)
      requires m < |modules|
    {
      strict ==> n in modules[m].starRecord && modules[m].starRecord[n] == r && n in modules[m].visible
    }

    /** A use that does not stop at one member, so that the whole binding is needed. */
    predicate IsOpaque(m: nat, l: Symbol)
      requires m < |modules| && l in modules[m].imports
    {
      l in used || (modules[m].imports[l].imported.Literal? && l in facades) || ReexportsBinding(m, l)
    }

    /** A read of a member that the mixed module `f` initializes with its own body. */
    predicate IsLocalMember(l: Import, f: nat, reference: Reference)
      requires f < |modules|
    {
      l.imported.Star? && reference.Member? && reference.property.Some? && SkipsName(f, reference.property.value)
    }

    predicate IsOpaqueRead(m: nat, f: nat, l: Symbol, included: bool, x: Reference)
      requires m < |modules| && f < |modules| && l in modules[m].imports
    {
      && included
      && (x == Whole(l) || (x.Member? && x.object_ == l && x.resolution.Unresolved?
          && !IsLocalMember(modules[m].imports[l], f, x)))
    }

    predicate ReadsOpaquely(m: nat, f: nat, l: Symbol)
      requires m < |modules| && f < |modules| && l in modules[m].imports
    {
      exists i, x | 0 <= i < |modules[m].statements| && x in modules[m].statements[i].references ::
        IsOpaqueRead(m, f, l, modules[m].statements[i].included, x)
    }

    function MemberReads(m: nat, f: nat, l: Symbol): set<Symbol>
      requires m < |modules| && f < |modules| && l in modules[m].imports
    {
      set i, x | 0 <= i < |modules[m].statements| && x in modules[m].statements[i].references
                 && modules[m].statements[i].included && x.Member? && x.object_ == l
                 && x.resolution.Read? && x.resolution.symbol.Some? && x.resolution.symbol.value !in inlined
                 && !IsLocalMember(modules[m].imports[l], f, x) :: x.resolution.symbol.value
    }

    function WholeBinding(m: nat, f: nat, l: Symbol): set<Symbol>
      requires Valid() && m < |modules| && f < |modules| && l in modules[m].imports
    {
      match modules[m].imports[l].imported
      case Star => set n | n in modules[f].visible && !SkipsName(f, n) :: modules[f].exports[n]
      case Literal(n) => {if n in modules[f].exports then modules[f].exports[n] else l}
    }

    function BindingSymbols(m: nat, f: nat, l: Symbol): set<Symbol>
      requires Valid() && m < |modules| && f < |modules| && l in modules[m].imports
    {
      if modules[m].imports[l].imported.Literal? && SkipsName(f, modules[m].imports[l].imported.name) then {}
      else if IsOpaque(m, l) then WholeBinding(m, f, l)
      else MemberReads(m, f, l) + (if ReadsOpaquely(m, f, l) then WholeBinding(m, f, l) else {})
    }

    function DemandedSymbols(m: nat, r: nat, f: nat): set<Symbol>
      requires Valid() && IsRecord(m, r) && f < |modules|
    {
      if modules[m].records[r].isStar then
        set n | n in modules[f].visible && StarProvides(m, r, n) && !SkipsName(f, n) :: modules[f].exports[n]
      else
        set l, s | l in modules[m].imports && modules[m].imports[l].record == r && s in BindingSymbols(m, f, l) :: s
    }

    /** The targets behind the symbols and the route carriers, before any delegation. */
    function RoutedTargets(m: nat, r: nat, f: nat): set<Target>
      requires Valid() && IsRecord(m, r) && f < |modules|
    {
      (if RoutesThrough(m, r, f) && f in localRoutes && f in routeCarriers then routeCarriers[f] else {})
      + (set s, t | s in DemandedSymbols(m, r, f) && t in TargetsOf(m, s) :: t)
    }

    /** The record stops at the importee's own initializer. */
    predicate StopsAtWrapper(m: nat, r: nat, f: nat)
      requires IsRecord(m, r) && f < |modules|
    {
      WrapperIsReachable(f) && !RoutesThrough(m, r, f) && !RoutesRecords(f)
    }

    /** Everything the record needs initialized, whoever does it. */
    ghost function Demand(m: nat, r: nat): set<Target>
      requires Valid() && IsRecord(m, r)
    {
      if Importee(m, r).None? then {}
      else
        var f := Importee(m, r).value;
        if StopsAtWrapper(m, r, f) then {ModuleInit(f)}
        else RoutedTargets(m, r, f) + (if OwnsNonRoutedInit(f) then {ModuleInit(f)} else {})
    }
  }

  // ---- Collecting with delegation ---------------------------------------------------------

  /** The targets record `r` of `m` emits, and the forwarders visited on the way. */
  ghost function Collect(c: Context, m: nat, r: nat, visited: set<nat>): (result: (set<Target>, set<nat>))
    requires c.Valid() && c.IsRecord(m, r)
    ensures visited <= result.1
    decreases |Unvisited(|c.modules|, visited)|, 0, 1
  {
    if c.Importee(m, r).None? then ({}, visited)
    else
      var f := c.Importee(m, r).value;
      if c.IsEagerForwarder(f) && (!c.strict || c.DischargesOwnHops(f)) then ({}, visited)
      else if c.StopsAtWrapper(m, r, f) then ({ModuleInit(f)}, visited)
      else
        var routed := c.RoutedTargets(m, r, f);
        if c.IsEagerForwarder(f) then
          var discharged := Discharged(c, f, visited);
          (routed - discharged.0, discharged.1)
        else
          (routed + (if c.OwnsNonRoutedInit(f) then {ModuleInit(f)} else {}), visited)
  }

  /** What the forwarder's own statements emit; a forwarder met again discharges nothing. */
  ghost function Discharged(c: Context, f: nat, visited: set<nat>): (result: (set<Target>, set<nat>))
    requires c.Valid() && f < |c.modules|
    ensures visited <= result.1
    decreases |Unvisited(|c.modules|, visited)|, 0, 0
  {
    if f in visited then ({}, visited)
    else if !c.modules[f].normal then ({}, visited + {f})
    else
      VisitLowers(|c.modules|, visited, f);
      CollectAll(c, f, c.Obligations(f, 0), visited + {f})
  }

  ghost function CollectAll(c: Context, f: nat, records: seq<nat>, visited: set<nat>): (result: (set<Target>, set<nat>))
    requires c.Valid() && forall r | r in records :: c.IsRecord(f, r)
    ensures visited <= result.1
    decreases |Unvisited(|c.modules|, visited)|, |records| + 1, 0
  {
    if records == [] then ({}, visited)
    else
      assert records[0] in records;
      var first := Collect(c, f, records[0], visited);
      MoreVisitedIsLess(|c.modules|, visited, first.1);
      var rest := CollectAll(c, f, records[1..], first.1);
      (first.0 + rest.0, rest.1)
  }

  method CollectTargets(c: Context, m: nat, r: nat, visited: set<nat>) returns (targets: set<Target>, seen: set<nat>)
    requires c.Valid() && c.IsRecord(m, r)
    ensures (targets, seen) == Collect(c, m, r, visited)
    decreases |Unvisited(|c.modules|, visited)|, 1
  {
    targets, seen := {}, visited;
    if c.Importee(m, r).None? {
      return;
    }
    var f := c.Importee(m, r).value;
    if c.IsEagerForwarder(f) && (!c.strict || c.DischargesOwnHops(f)) {
      return;
    }
    if c.StopsAtWrapper(m, r, f) {
      targets := {ModuleInit(f)};
      return;
    }
    targets := c.RoutedTargets(m, r, f);
    assert targets + {} == targets;
    if c.IsEagerForwarder(f) {
      var discharged;
      discharged, seen := DischargedTargets(c, f, visited);
      targets := targets - discharged;
    }
    if c.OwnsNonRoutedInit(f) {
      targets := targets + {ModuleInit(f)};
    }
  }

  method DischargedTargets(c: Context, f: nat, visited: set<nat>) returns (discharged: set<Target>, seen: set<nat>)
    requires c.Valid() && f < |c.modules|
    ensures (discharged, seen) == Discharged(c, f, visited)
    decreases |Unvisited(|c.modules|, visited)|, 0
  {
    discharged, seen := {}, visited;
    if f in seen {
      return;
    }
    seen := seen + {f};
    if !c.modules[f].normal {
      return;
    }
    VisitLowers(|c.modules|, visited, f);
    var records := c.Obligations(f, 0);
    ghost var all := CollectAll(c, f, records, seen);
    while records != []
      invariant forall r | r in records :: c.IsRecord(f, r)
      invariant visited + {f} <= seen
      invariant Remaining(c, f, records, seen, discharged, all)
      decreases |records|
    {
      assert records[0] in records;
      MoreVisitedIsLess(|c.modules|, visited + {f}, seen);
      RemainingStep(c, f, records, seen, discharged, all);
      var targets;
      targets, seen := CollectTargets(c, f, records[0], seen);
      discharged := discharged + targets;
      records := records[1..];
    }
  }

  ghost predicate Remaining(c: Context, f: nat, records: seq<nat>, seen: set<nat>, discharged: set<Target>,
      all: (set<Target>, set<nat>))
    requires c.Valid() && forall r | r in records :: c.IsRecord(f, r)
  {
    var rest := CollectAll(c, f, records, seen);
    all.0 == discharged + rest.0 && all.1 == rest.1
  }

  lemma RemainingStep(c: Context, f: nat, records: seq<nat>, seen: set<nat>, discharged: set<Target>,
      all: (set<Target>, set<nat>))
    requires c.Valid() && records != [] && (forall r | r in records :: c.IsRecord(f, r)) && c.IsRecord(f, records[0])
    requires Remaining(c, f, records, seen, discharged, all)
    ensures forall r | r in records[1..] :: c.IsRecord(f, r)
    ensures var first := Collect(c, f, records[0], seen);
      Remaining(c, f, records[1..], first.1, discharged + first.0, all)
  {
  }

  // ---- What is emitted, and what is demanded ----------------------------------------------

  /** Delegation only ever removes targets, whatever was visited before. */
  lemma EmitsOnlyWhatIsDemanded(c: Context, m: nat, r: nat, visited: set<nat>)
    requires c.Valid() && c.IsRecord(m, r)
    ensures Collect(c, m, r, visited).0 <= c.Demand(m, r)
  {
  }

  /** The record is let off by the early-out: its importee is an eager forwarder that emits every
      static import of its own. */
  ghost predicate IsLetOff(c: Context, m: nat, r: nat)
    requires c.Valid() && c.IsRecord(m, r)
  {
    && c.Importee(m, r).Some?
    && c.IsEagerForwarder(c.Importee(m, r).value) && c.DischargesOwnHops(c.Importee(m, r).value)
  }

  /** Whatever a forwarder is credited with, one of its own obligations demands; in strict mode, one
      that is not let off. */
  lemma {:induction false} DischargedIsDemanded(c: Context, f: nat, records: seq<nat>, visited: set<nat>, t: Target)
      returns (r: nat)
    requires c.Valid() && forall r | r in records :: c.IsRecord(f, r)
    requires t in CollectAll(c, f, records, visited).0
    ensures r in records && t in c.Demand(f, r) && (c.strict ==> !IsLetOff(c, f, r))
    decreases |records|
  {
    assert records[0] in records;
    var first := Collect(c, f, records[0], visited);
    if t in first.0 {
      EmitsOnlyWhatIsDemanded(c, f, records[0], visited);
      r := records[0];
    } else {
      r := DischargedIsDemanded(c, f, records[1..], first.1, t);
    }
  }

  /** A record whose importee initializes itself emits its whole demand. */
  lemma NoForwarderNoDelegation(c: Context, m: nat, r: nat)
    requires c.Valid() && m < |c.modules| && c.IsObligation(m, r)
    requires c.Importee(m, r).Some? ==> !c.IsEagerForwarder(c.Importee(m, r).value)
    ensures Collect(c, m, r, {}).0 == c.Demand(m, r)
  {
  }
}
