/** Delegation followed through the wrappers it stops at: every demanded module is initialized. */
module InitCompletion {
  import opened InitCoverage
  import opened InitDelegation
  import opened InitTargets
  import opened Wrappers

  // ---- What running a module initializes --------------------------------------------------

  /** Running the body of `m` makes the call to `t`, through at most `depth` initializers. */
  ghost predicate InitializesWithin(c: Context, m: nat, t: Target, depth: nat)
    requires c.Valid()
    decreases depth
  {
    || EmitsAlong(c, m, t)
    || (depth > 0 && exists g: nat :: EmitsAlong(c, m, ModuleInit(g)) && InitializesWithin(c, g, t, depth - 1))
  }

  /** The least relation under which a module initializes what it emits, and what is initialized by a
      module it initializes. */
  ghost predicate Initializes(c: Context, m: nat, t: Target)
    requires c.Valid()
  {
    exists depth: nat :: InitializesWithin(c, m, t, depth)
  }

  lemma EmittedIsInitialized(c: Context, m: nat, t: Target)
    requires c.Valid() && EmitsAlong(c, m, t)
    ensures Initializes(c, m, t)
  {
    assert InitializesWithin(c, m, t, 0);
  }

  lemma InitializedThrough(c: Context, m: nat, g: nat, t: Target)
    requires c.Valid() && EmitsAlong(c, m, ModuleInit(g)) && Initializes(c, g, t)
    ensures Initializes(c, m, t)
  {
    var depth: nat :| InitializesWithin(c, g, t, depth);
    assert InitializesWithin(c, m, t, depth + 1);
  }

  // ---- The import graph, and linking of wrapped modules -----------------------------------

  ghost predicate Imports(c: Context, m: nat, f: nat)
    requires c.Valid()
  {
    m < |c.modules| && exists r :: c.IsObligation(m, r) && c.Importee(m, r) == Some(f)
  }

  /** A set of modules that no obligation leaves, such as what one importer imports in the end. */
  ghost predicate IsImportScope(c: Context, scope: set<nat>)
    requires c.Valid()
  {
    forall m, f {:trigger Imports(c, m, f)} | m in scope && Imports(c, m, f) :: f in scope
  }

  /** `rank` falls along every obligation in the scope. */
  ghost predicate ImportsAreAcyclic(c: Context, scope: set<nat>, rank: nat -> nat)
    requires c.Valid()
  {
    forall m, f {:trigger Imports(c, m, f)} | m in scope && Imports(c, m, f) :: rank(f) < rank(m)
  }

  /** A wrapped module carries what lies behind it by obligations of its own body. */
  ghost predicate WrappersCarry(c: Context, scope: set<nat>, t: Target)
    requires c.Valid()
  {
    forall g {:trigger WrapperCarries(c, g, t)} | g in scope :: WrapperCarries(c, g, t)
  }

  ghost predicate WrapperCarries(c: Context, g: nat, t: Target)
    requires c.Valid()
  {
    IsBehind(c, g, t) && t != ModuleInit(g) ==> exists n, depth: nat :: IsCarried(c, g, n, t, depth)
  }

  ghost predicate InImportScope(c: Context, scope: set<nat>, rank: nat -> nat, t: Target) {
    && c.Valid() && c.strict && TargetsAreWrappers(c)
    && IsImportScope(c, scope) && ImportsAreAcyclic(c, scope, rank)
    && DelegationsAreCarried(c, scope, t) && WrappersCarry(c, scope, t)
  }

  lemma HopsAreImports(c: Context, scope: set<nat>, rank: nat -> nat, t: Target)
    requires InImportScope(c, scope, rank, t)
    ensures InScope(c, scope, rank, t)
  {
    forall m, f | m in scope && Hop(c, m, f) ensures f in scope && rank(f) < rank(m) {
      assert Imports(c, m, f);
    }
  }

  lemma {:induction false} PathLowersRank(c: Context, scope: set<nat>, rank: nat -> nat, path: seq<nat>)
    requires c.Valid() && IsImportScope(c, scope) && ImportsAreAcyclic(c, scope, rank)
    requires HopPath(c, path) && path[0] in scope
    ensures path[|path| - 1] in scope && rank(path[|path| - 1]) <= rank(path[0])
    decreases |path|
  {
    if |path| > 1 {
      Front(c, path);
      assert Imports(c, path[0], path[1]);
      PathLowersRank(c, scope, rank, path[1..]);
    }
  }

  // ---- Every demand is met ----------------------------------------------------------------

  lemma CallAlong(c: Context, path: seq<nat>, g: nat)
    requires c.Valid() && HopPath(c, path) && CallsImportee(c, path[|path| - 1], g)
    ensures EmitsAlong(c, path[0], ModuleInit(g)) && Imports(c, path[|path| - 1], g)
  {
    assert EndsAtEmitter(c, path, ModuleInit(g));
  }

  /** What a module covers it initializes: the wrapper in front, if there is one, does the rest. */
  lemma {:induction false} CoveredIsInitialized(c: Context, scope: set<nat>, rank: nat -> nat, m: nat, t: Target)
    requires InImportScope(c, scope, rank, t) && m in scope && IsCovered(c, m, t)
    ensures Initializes(c, m, t)
    decreases rank(m), 0
  {
    var path :| HopPath(c, path) && path[0] == m && EndsAtProvider(c, path, t);
    if IsEmitted(c, path[|path| - 1], t) {
      assert EndsAtEmitter(c, path, t);
      EmittedIsInitialized(c, m, t);
    } else {
      var g :| IsBehind(c, g, t) && CallsImportee(c, path[|path| - 1], g);
      PathLowersRank(c, scope, rank, path);
      CallAlong(c, path, g);
      if t == ModuleInit(g) {
        EmittedIsInitialized(c, m, t);
      } else {
        BehindIsInitialized(c, scope, rank, g, t);
        InitializedThrough(c, m, g, t);
      }
    }
  }

  /** What lies behind a wrapper is initialized by running its body. */
  lemma {:induction false} BehindIsInitialized(c: Context, scope: set<nat>, rank: nat -> nat, g: nat, t: Target)
    requires InImportScope(c, scope, rank, t) && g in scope && IsBehind(c, g, t) && t != ModuleInit(g)
    ensures Initializes(c, g, t)
    decreases rank(g), 1
  {
    assert WrapperCarries(c, g, t);
    var n, depth: nat :| IsCarried(c, g, n, t, depth);
    HopsAreImports(c, scope, rank, t);
    CarriedIsCovered(c, scope, rank, g, n, t, depth);
    CoveredIsInitialized(c, scope, rank, g, t);
  }

  /** In strict mode, every target that an obligation demands is initialized by running the importer:
      emitted there or by an eager forwarder it can reach, or initialized in turn by a wrapped module
      whose `init_*` one of them emits. */
  lemma DemandIsInitialized(c: Context, scope: set<nat>, rank: nat -> nat, m: nat, r: nat, t: Target)
    requires InImportScope(c, scope, rank, t) && m in scope
    requires m < |c.modules| && c.IsObligation(m, r) && t in c.Demand(m, r)
    ensures Initializes(c, m, t)
  {
    HopsAreImports(c, scope, rank, t);
    DelegationLosesNothing(c, scope, rank, m, r, t);
    CoveredIsInitialized(c, scope, rank, m, t);
  }
}
