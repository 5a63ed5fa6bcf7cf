/** The wrapped modules whose initializer an entry runs because it re-exports their bindings. */
module EntryInits {
  import opened InitTargets
  import opened Sorting
  import opened Strings
  import opened Wrappers

  datatype Symbol = Symbol(owner: nat, index: nat)

  /** One resolved export of the entry; `canonical` is its symbol after following links. */
  datatype Export = Export(name: string, cameFromCommonjs: bool, canonical: Symbol)

  datatype Meta = Meta(isEsmWrapped: bool, isInnerConcatenated: bool, wrapper: Option<Symbol>, tlaTainted: bool,
      execOrder: nat)

  datatype Init = Init(owner: nat, wrapper: Symbol, tlaTainted: bool, execOrder: nat)

  /** A qualifying export: the symbol its call would name, and the call itself. */
  datatype Candidate = Candidate(name: string, call: Symbol, init: Init)

  /** `wrapperCanonical` follows the links of a wrapper symbol. */
  datatype Links = Links(entry: nat, metas: map<nat, Meta>, wrapperCanonical: map<Symbol, Symbol>)
  {
    function CanonicalWrapper(s: Symbol): Symbol {
      if s in wrapperCanonical then wrapperCanonical[s] else s
    }

    /** `None` unless the export resolves to another module that is called through its own wrapper. */
    function CandidateOf(e: Export): Option<Candidate> {
      if e.cameFromCommonjs || e.canonical.owner == entry || e.canonical.owner !in metas then None
      else
        var meta := metas[e.canonical.owner];
        if !meta.isEsmWrapped || meta.isInnerConcatenated || meta.wrapper.None?
            || meta.wrapper.value == e.canonical then None
        else Some(Candidate(e.name, CanonicalWrapper(meta.wrapper.value),
                            Init(e.canonical.owner, meta.wrapper.value, meta.tlaTainted, meta.execOrder)))
    }
  }

  predicate Available(names: Option<set<Symbol>>, call: Symbol) {
    names.None? || call in names.value
  }

  function Qualifying(l: Links, exports: seq<Export>, names: Option<set<Symbol>>): seq<Candidate> {
    if exports == [] then []
    else
      var candidate := l.CandidateOf(exports[|exports| - 1]);
      Qualifying(l, exports[..|exports| - 1], names) +
      if candidate.Some? && Available(names, candidate.value.call) then [candidate.value] else []
  }

  /** Keep the first candidate of every call. */
  function FirstPerCall(s: seq<Candidate>): seq<Candidate> {
    if s == [] then []
    else
      var n := |s| - 1;
      var kept := FirstPerCall(s[..n]);
      if s[n].call in Calls(s[..n]) then kept else kept + [s[n]]
  }

  function Calls(s: seq<Candidate>): set<Symbol> {
    set c | c in s :: c.call
  }

  function Inits(s: seq<Candidate>): (r: seq<Init>)
    ensures |r| == |s| && forall i | 0 <= i < |r| :: r[i] == s[i].init
  {
    seq(|s|, i requires 0 <= i < |s| => s[i].init)
  }

  // ---- The two orders ---------------------------------------------------------------------

  predicate ByName(a: Candidate, b: Candidate) {
    StringLe(a.name, b.name)
  }

  predicate ByExecOrder(a: Init, b: Init) {
    a.execOrder <= b.execOrder
  }

  lemma ByNameIsTotalPreorder()
    ensures TotalPreorder(ByName)
  {
    forall x: Candidate, y: Candidate ensures ByName(x, y) || ByName(y, x) {
      StringLeTotal(x.name, y.name);
    }
    forall x: Candidate, y: Candidate, z: Candidate | ByName(x, y) && ByName(y, z) ensures ByName(x, z) {
      StringLeTransitive(x.name, y.name, z.name);
    }
  }

  lemma ByExecOrderIsTotalPreorder()
    ensures TotalPreorder(ByExecOrder)
  {
  }

  /** The walk: registration passes no names, emission the names its chunk declares or imports. */
  function CollectEntryInits(l: Links, exports: seq<Export>, names: Option<set<Symbol>>): seq<Init> {
    Sort(ByExecOrder, Inits(FirstPerCall(Sort(ByName, Qualifying(l, exports, names)))))
  }

  // ---- Filtering commutes with every stage ------------------------------------------------

  function Keep(s: seq<Candidate>, names: Option<set<Symbol>>): seq<Candidate> {
    if s == [] then []
    else Keep(s[..|s| - 1], names) + if Available(names, s[|s| - 1].call) then [s[|s| - 1]] else []
  }

  lemma KeepAppend(s: seq<Candidate>, c: Candidate, names: Option<set<Symbol>>)
    ensures Keep(s + [c], names) == if Available(names, c.call) then Keep(s, names) + [c] else Keep(s, names)
  {
    assert (s + [c])[..|s|] == s;
    assert Keep(s, names) + [] == Keep(s, names);
  }

  lemma FirstAppend(s: seq<Candidate>, c: Candidate)
    ensures FirstPerCall(s + [c]) == if c.call in Calls(s) then FirstPerCall(s) else FirstPerCall(s) + [c]
  {
    assert (s + [c])[..|s|] == s;
  }

  lemma {:induction false} KeepMultiset(s: seq<Candidate>, names: Option<set<Symbol>>, c: Candidate)
    ensures multiset(Keep(s, names))[c] == if Available(names, c.call) then multiset(s)[c] else 0
    ensures c in Keep(s, names) <==> c in s && Available(names, c.call)
  {
    if s != [] {
      var n := |s| - 1;
      assert s == s[..n] + [s[n]];
      KeepMultiset(s[..n], names, c);
    }
  }

  lemma {:induction false} QualifyingThenKeep(l: Links, exports: seq<Export>, names: Option<set<Symbol>>)
    ensures Qualifying(l, exports, names) == Keep(Qualifying(l, exports, None), names)
  {
    if exports != [] {
      var front, candidate := exports[..|exports| - 1], l.CandidateOf(exports[|exports| - 1]);
      QualifyingThenKeep(l, front, names);
      if candidate.Some? {
        KeepAppend(Qualifying(l, front, None), candidate.value, names);
      } else {
        assert Qualifying(l, exports, None) == Qualifying(l, front, None);
      }
    }
  }

  lemma {:induction false} KeepSortedIsSorted(s: seq<Candidate>, names: Option<set<Symbol>>)
    requires SortedBy(ByName, s)
    ensures SortedBy(ByName, Keep(s, names))
  {
    if s != [] {
      var n := |s| - 1;
      KeepSortedIsSorted(s[..n], names);
      var front := Keep(s[..n], names);
      forall i | 0 <= i < |front| ensures ByName(front[i], s[n]) {
        KeepMultiset(s[..n], names, front[i]);
      }
    }
  }

  predicate DistinctNames(exports: seq<Export>) {
    forall i, j | 0 <= i < j < |exports| :: exports[i].name != exports[j].name
  }

  lemma {:induction false} QualifyingComesFrom(l: Links, exports: seq<Export>, names: Option<set<Symbol>>, c: Candidate)
    ensures c in Qualifying(l, exports, names) <==>
            exists e | e in exports :: l.CandidateOf(e) == Some(c) && Available(names, c.call)
  {
    if exports != [] {
      var n := |exports| - 1;
      assert exports == exports[..n] + [exports[n]];
      QualifyingComesFrom(l, exports[..n], names, c);
    }
  }

  lemma NoTiesByName(l: Links, exports: seq<Export>, names: Option<set<Symbol>>, s: seq<Candidate>)
    requires DistinctNames(exports) && multiset(s) == multiset(Qualifying(l, exports, names))
    ensures NoTies(ByName, s)
  {
    SameElements(s, Qualifying(l, exports, names));
    forall x, y | x in s && y in s && ByName(x, y) && ByName(y, x) ensures x == y {
      StringLeAntisymmetric(x.name, y.name);
      QualifyingComesFrom(l, exports, names, x);
      QualifyingComesFrom(l, exports, names, y);
      var d :| d in exports && l.CandidateOf(d) == Some(x);
      var e :| e in exports && l.CandidateOf(e) == Some(y);
      var i :| 0 <= i < |exports| && exports[i] == d;
      var j :| 0 <= j < |exports| && exports[j] == e;
      assert exports[i].name == exports[j].name;
    }
  }

  lemma KeepCommutesWithSort(l: Links, exports: seq<Export>, names: Option<set<Symbol>>)
    requires DistinctNames(exports)
    ensures Sort(ByName, Qualifying(l, exports, names)) == Keep(Sort(ByName, Qualifying(l, exports, None)), names)
  {
    var all, some := Qualifying(l, exports, None), Qualifying(l, exports, names);
    QualifyingThenKeep(l, exports, names);
    ByNameIsTotalPreorder();
    SortIsSorted(ByName, all);
    SortIsSorted(ByName, some);
    KeepSortedIsSorted(Sort(ByName, all), names);
    var one, two := Sort(ByName, some), Keep(Sort(ByName, all), names);
    forall c ensures multiset(one)[c] == multiset(two)[c] {
      KeepMultiset(all, names, c);
      KeepMultiset(Sort(ByName, all), names, c);
    }
    assert multiset(one) == multiset(two);
    NoTiesByName(l, exports, names, one);
    SortedIsUnique(ByName, one, two);
  }

  lemma KeepKeepsCall(s: seq<Candidate>, call: Symbol, names: Option<set<Symbol>>)
    requires Available(names, call)
    ensures call in Calls(Keep(s, names)) <==> call in Calls(s)
  {
    if call in Calls(s) {
      var d :| d in s && d.call == call;
      KeepMultiset(s, names, d);
    }
    if call in Calls(Keep(s, names)) {
      var d :| d in Keep(s, names) && d.call == call;
      KeepMultiset(s, names, d);
    }
  }

  lemma {:induction false} KeepCommutesWithFirst(s: seq<Candidate>, names: Option<set<Symbol>>)
    ensures FirstPerCall(Keep(s, names)) == Keep(FirstPerCall(s), names)
  {
    if s != [] {
      var c, front := s[|s| - 1], s[..|s| - 1];
      assert s == front + [c];
      KeepCommutesWithFirst(front, names);
      KeepAppend(front, c, names);
      FirstAppend(front, c);
      KeepAppend(FirstPerCall(front), c, names);
      if Available(names, c.call) {
        KeepKeepsCall(front, c.call, names);
        FirstAppend(Keep(front, names), c);
      }
    }
  }

  // ---- The two consumers agree ------------------------------------------------------------

  /** Different modules have different places in the execution order. */
  predicate Consistent(l: Links) {
    forall a, b | a in l.metas && b in l.metas && a != b :: l.metas[a].execOrder != l.metas[b].execOrder
  }

  /** The init is that of a module of the table, and `call` is its canonical wrapper. */
  predicate FromTable(l: Links, c: Candidate) {
    && c.call == l.CanonicalWrapper(c.init.wrapper)
    && c.init.owner in l.metas
    && c.init == Init(c.init.owner, c.init.wrapper, l.metas[c.init.owner].tlaTainted, l.metas[c.init.owner].execOrder)
    && l.metas[c.init.owner].wrapper == Some(c.init.wrapper)
  }

  lemma {:induction false} QualifyingFromTable(l: Links, exports: seq<Export>, names: Option<set<Symbol>>)
    ensures forall c | c in Qualifying(l, exports, names) :: FromTable(l, c)
  {
    if exports != [] {
      QualifyingFromTable(l, exports[..|exports| - 1], names);
    }
  }

  lemma CallsAppend(s: seq<Candidate>, c: Candidate)
    ensures Calls(s + [c]) == Calls(s) + {c.call}
  {
    assert c in s + [c];
  }

  predicate DistinctCalls(s: seq<Candidate>) {
    forall i, j | 0 <= i < j < |s| :: s[i].call != s[j].call
  }

  lemma DistinctAppend(s: seq<Candidate>, c: Candidate)
    requires DistinctCalls(s) && c.call !in Calls(s)
    ensures DistinctCalls(s + [c])
  {
    forall i | 0 <= i < |s| ensures s[i].call != c.call {
      assert s[i] in s && s[i].call in Calls(s);
    }
  }

  lemma {:induction false} FirstPerCallIsDistinct(s: seq<Candidate>)
    ensures forall c | c in FirstPerCall(s) :: c in s
    ensures DistinctCalls(FirstPerCall(s))
    ensures Calls(FirstPerCall(s)) == Calls(s)
  {
    if s != [] {
      var front, c := s[..|s| - 1], s[|s| - 1];
      assert s == front + [c];
      FirstPerCallIsDistinct(front);
      FirstAppend(front, c);
      CallsAppend(front, c);
      if c.call !in Calls(front) {
        CallsAppend(FirstPerCall(front), c);
        DistinctAppend(FirstPerCall(front), c);
      }
    }
  }

  function FilterInits(l: Links, inits: seq<Init>, names: set<Symbol>): seq<Init> {
    if inits == [] then []
    else
      FilterInits(l, inits[..|inits| - 1], names) +
      if l.CanonicalWrapper(inits[|inits| - 1].wrapper) in names then [inits[|inits| - 1]] else []
  }

  lemma {:induction false} FilterOfInits(l: Links, s: seq<Candidate>, names: set<Symbol>)
    requires forall c | c in s :: FromTable(l, c)
    ensures Inits(Keep(s, Some(names))) == FilterInits(l, Inits(s), names)
  {
    if s != [] {
      var n := |s| - 1;
      assert s[n] in s && forall c | c in s[..n] :: c in s;
      FilterOfInits(l, s[..n], names);
      assert Inits(s)[..n] == Inits(s[..n]);
    }
  }

  lemma {:induction false} FilterMultiset(l: Links, s: seq<Init>, names: set<Symbol>, x: Init)
    ensures multiset(FilterInits(l, s, names))[x] ==
      if l.CanonicalWrapper(x.wrapper) in names then multiset(s)[x] else 0
    ensures x in FilterInits(l, s, names) ==> x in s
  {
    if s != [] {
      var n := |s| - 1;
      assert s == s[..n] + [s[n]];
      FilterMultiset(l, s[..n], names, x);
    }
  }

  lemma {:induction false} FilterSortedIsSorted(l: Links, s: seq<Init>, names: set<Symbol>)
    requires SortedBy(ByExecOrder, s)
    ensures SortedBy(ByExecOrder, FilterInits(l, s, names))
  {
    if s != [] {
      var n := |s| - 1;
      FilterSortedIsSorted(l, s[..n], names);
      var front := FilterInits(l, s[..n], names);
      forall i | 0 <= i < |front| ensures ByExecOrder(front[i], s[n]) {
        FilterMultiset(l, s[..n], names, front[i]);
      }
    }
  }

  lemma NoTiesByOrder(l: Links, s: seq<Candidate>, inits: seq<Init>)
    requires Consistent(l) && (forall c | c in s :: FromTable(l, c)) && multiset(inits) == multiset(Inits(s))
    ensures NoTies(ByExecOrder, inits)
  {
    SameElements(inits, Inits(s));
    forall x: Init, y: Init | x in inits && y in inits && ByExecOrder(x, y) && ByExecOrder(y, x) ensures x == y {
      var i :| 0 <= i < |s| && Inits(s)[i] == x;
      var j :| 0 <= j < |s| && Inits(s)[j] == y;
      assert s[i] in s && s[j] in s;
    }
  }

  lemma FilterCommutesWithSort(l: Links, s: seq<Candidate>, names: set<Symbol>)
    requires Consistent(l) && forall c | c in s :: FromTable(l, c)
    ensures Sort(ByExecOrder, Inits(Keep(s, Some(names)))) == FilterInits(l, Sort(ByExecOrder, Inits(s)), names)
  {
    var inits, kept := Inits(s), Inits(Keep(s, Some(names)));
    FilterOfInits(l, s, names);
    ByExecOrderIsTotalPreorder();
    SortIsSorted(ByExecOrder, inits);
    SortIsSorted(ByExecOrder, kept);
    FilterSortedIsSorted(l, Sort(ByExecOrder, inits), names);
    var one, two := Sort(ByExecOrder, kept), FilterInits(l, Sort(ByExecOrder, inits), names);
    forall x ensures multiset(one)[x] == multiset(two)[x] {
      FilterMultiset(l, inits, names, x);
      FilterMultiset(l, Sort(ByExecOrder, inits), names, x);
    }
    assert multiset(one) == multiset(two);
    forall c | c in Keep(s, Some(names)) ensures FromTable(l, c) {
      KeepMultiset(s, Some(names), c);
    }
    NoTiesByOrder(l, Keep(s, Some(names)), one);
    SortedIsUnique(ByExecOrder, one, two);
  }

  /** Emission calls exactly the registered wrappers that its chunk has a name for, in the same
      order. */
  lemma EmissionIsFilteredRegistration(l: Links, exports: seq<Export>, names: set<Symbol>)
    requires DistinctNames(exports) && Consistent(l)
    ensures CollectEntryInits(l, exports, Some(names)) == FilterInits(l, CollectEntryInits(l, exports, None), names)
  {
    KeepCommutesWithSort(l, exports, Some(names));
    var sorted := Sort(ByName, Qualifying(l, exports, None));
    KeepCommutesWithFirst(sorted, Some(names));
    QualifyingFromTable(l, exports, None);
    SameElements(sorted, Qualifying(l, exports, None));
    FirstPerCallIsDistinct(sorted);
    FilterCommutesWithSort(l, FirstPerCall(sorted), names);
  }

  /** The export is an ES module's of its own, which another module than the entry owns, and which is called
      through the wrapper `x` names. */
  ghost predicate IsCallFor(l: Links, e: Export, x: Init) {
    && !e.cameFromCommonjs && e.canonical.owner == x.owner != l.entry && x.owner in l.metas
    && var meta := l.metas[x.owner];
       && meta.isEsmWrapped && !meta.isInnerConcatenated
       && meta.wrapper == Some(x.wrapper) && x.wrapper != e.canonical
       && x.tlaTainted == meta.tlaTainted && x.execOrder == meta.execOrder
  }

  /** Some export asks for this call, and the consumer has a name for it. */
  ghost predicate IsWanted(l: Links, exports: seq<Export>, names: Option<set<Symbol>>, c: Symbol) {
    && (names.Some? ==> c in names.value)
    && exists e, x :: e in exports && IsCallFor(l, e, x) && l.CanonicalWrapper(x.wrapper) == c
  }

  /** Of the exports that ask for the same call, the init is that of the one whose name comes first. */
  ghost predicate IsFirstByName(l: Links, exports: seq<Export>, x: Init) {
    exists e :: e in exports && IsCallFor(l, e, x) && ComesFirst(l, exports, e, x)
  }

  ghost predicate ComesFirst(l: Links, exports: seq<Export>, e: Export, x: Init) {
    forall d, y {:trigger IsCallFor(l, d, y)} | d in exports && IsCallFor(l, d, y)
        && l.CanonicalWrapper(y.wrapper) == l.CanonicalWrapper(x.wrapper) ::
      e.name == d.name || ComesBefore(e.name, d.name)
  }

  lemma CandidateIff(l: Links, e: Export, c: Candidate)
    ensures l.CandidateOf(e) == Some(c) <==>
            IsCallFor(l, e, c.init) && c.name == e.name && c.call == l.CanonicalWrapper(c.init.wrapper)
  {
  }

  ghost predicate IsCalled(l: Links, inits: seq<Init>, c: Symbol) {
    exists x | x in inits :: l.CanonicalWrapper(x.wrapper) == c
  }

  lemma CallsAreWanted(l: Links, exports: seq<Export>, names: Option<set<Symbol>>, c: Symbol)
    ensures c in Calls(Qualifying(l, exports, names)) <==> IsWanted(l, exports, names, c)
  {
    if d :| d in Qualifying(l, exports, names) && d.call == c {
      QualifyingComesFrom(l, exports, names, d);
      var e :| e in exports && l.CandidateOf(e) == Some(d) && Available(names, d.call);
      CandidateIff(l, e, d);
    }
    if IsWanted(l, exports, names, c) {
      var e, x :| e in exports && IsCallFor(l, e, x) && l.CanonicalWrapper(x.wrapper) == c;
      var d := Candidate(e.name, c, x);
      CandidateIff(l, e, d);
      QualifyingComesFrom(l, exports, names, d);
      assert d in Qualifying(l, exports, names);
    }
  }

  lemma CalledInits(l: Links, s: seq<Candidate>, inits: seq<Init>, c: Symbol)
    requires (forall d | d in s :: FromTable(l, d)) && multiset(inits) == multiset(Inits(s))
    ensures IsCalled(l, inits, c) <==> c in Calls(s)
  {
    SameElements(inits, Inits(s));
    if x: Init :| x in inits && l.CanonicalWrapper(x.wrapper) == c {
      var i :| 0 <= i < |s| && Inits(s)[i] == x;
      assert s[i] in s;
    }
    if d :| d in s && d.call == c {
      var i :| 0 <= i < |s| && s[i] == d;
      assert Inits(s)[i] in inits;
    }
  }

  lemma OneInitPerCall(l: Links, s: seq<Candidate>, inits: seq<Init>)
    requires (forall d | d in s :: FromTable(l, d)) && multiset(inits) == multiset(Inits(s))
    requires forall i, j | 0 <= i < j < |s| :: s[i].call != s[j].call
    ensures forall x: Init, y: Init | x in inits && y in inits
        && l.CanonicalWrapper(x.wrapper) == l.CanonicalWrapper(y.wrapper) :: x == y
  {
    SameElements(inits, Inits(s));
    forall x: Init, y: Init | x in inits && y in inits && l.CanonicalWrapper(x.wrapper) == l.CanonicalWrapper(y.wrapper)
      ensures x == y
    {
      var i :| 0 <= i < |s| && Inits(s)[i] == x;
      var j :| 0 <= j < |s| && Inits(s)[j] == y;
      assert s[i] in s && s[j] in s;
      assert s[i].call == s[j].call;
    }
  }

  lemma InitsAreDistinct(l: Links, s: seq<Candidate>)
    requires (forall d | d in s :: FromTable(l, d)) && DistinctCalls(s)
    ensures Distinct(Inits(s))
  {
    forall i, j | 0 <= i < j < |s| ensures Inits(s)[i] != Inits(s)[j] {
      assert s[i] in s && s[j] in s;
    }
  }

  /** No two of the inits call the same wrapper, wherever they stand. */
  predicate CallsOnce(l: Links, inits: seq<Init>) {
    forall i, j | 0 <= i < j < |inits| ::
      l.CanonicalWrapper(inits[i].wrapper) != l.CanonicalWrapper(inits[j].wrapper)
  }

  lemma RearrangedCallsOnce(l: Links, s: seq<Candidate>, inits: seq<Init>)
    requires (forall d | d in s :: FromTable(l, d)) && DistinctCalls(s) && multiset(inits) == multiset(Inits(s))
    ensures CallsOnce(l, inits)
  {
    InitsAreDistinct(l, s);
    RearrangedIsDistinct(Inits(s), inits);
    OneInitPerCall(l, s, inits);
    forall i, j | 0 <= i < j < |inits|
      ensures l.CanonicalWrapper(inits[i].wrapper) != l.CanonicalWrapper(inits[j].wrapper)
    {
      assert inits[i] in inits && inits[j] in inits && inits[i] != inits[j];
    }
  }

  /** Of the candidates for one call, the first by name is kept. */
  lemma {:induction false} FirstPerCallIsLeast(s: seq<Candidate>, c: Candidate, d: Candidate)
    requires SortedBy(ByName, s) && c in FirstPerCall(s) && d in s && c.call == d.call
    ensures ByName(c, d)
  {
    var front, last := s[..|s| - 1], s[|s| - 1];
    assert s == front + [last];
    FirstPerCallIsDistinct(front);
    ByNameIsTotalPreorder();
    if c in FirstPerCall(front) {
      if d in front {
        FirstPerCallIsLeast(front, c, d);
      } else {
        var i :| 0 <= i < |front| && front[i] == c;
        assert ByName(s[i], s[|front|]);
      }
    } else {
      assert c == last && last.call !in Calls(front);
      assert d in front ==> d.call in Calls(front);
    }
  }

  lemma ChosenByName(l: Links, exports: seq<Export>, names: Option<set<Symbol>>, sorted: seq<Candidate>, c: Candidate)
    requires multiset(sorted) == multiset(Qualifying(l, exports, names)) && SortedBy(ByName, sorted)
    requires c in FirstPerCall(sorted)
    ensures IsFirstByName(l, exports, c.init)
  {
    var qualifying := Qualifying(l, exports, names);
    SameElements(sorted, qualifying);
    FirstPerCallIsDistinct(sorted);
    QualifyingComesFrom(l, exports, names, c);
    var e :| e in exports && l.CandidateOf(e) == Some(c) && Available(names, c.call);
    CandidateIff(l, e, c);
    forall d, y {:trigger IsCallFor(l, d, y)} | d in exports && IsCallFor(l, d, y)
        && l.CanonicalWrapper(y.wrapper) == l.CanonicalWrapper(c.init.wrapper)
      ensures e.name == d.name || ComesBefore(e.name, d.name)
    {
      var other := Candidate(d.name, c.call, y);
      CandidateIff(l, d, other);
      QualifyingComesFrom(l, exports, names, other);
      FirstPerCallIsLeast(sorted, c, other);
      StringLeIff(e.name, d.name);
    }
    assert ComesFirst(l, exports, e, c.init);
  }

  lemma InitsAreFirst(
      l: Links, exports: seq<Export>, names: Option<set<Symbol>>, sorted: seq<Candidate>, inits: seq<Init>)
    requires multiset(sorted) == multiset(Qualifying(l, exports, names)) && SortedBy(ByName, sorted)
    requires multiset(inits) == multiset(Inits(FirstPerCall(sorted)))
    ensures forall x | x in inits :: IsFirstByName(l, exports, x)
  {
    var first := FirstPerCall(sorted);
    SameElements(inits, Inits(first));
    forall x | x in inits ensures IsFirstByName(l, exports, x) {
      var i :| 0 <= i < |first| && Inits(first)[i] == x;
      ChosenByName(l, exports, names, sorted, first[i]);
    }
  }

  /** Each wanted wrapper is called by one init, that of the first export by name that asks for it; the calls
      are in execution order, and there are no others. */
  lemma EachWrapperOnceInOrder(l: Links, exports: seq<Export>, names: Option<set<Symbol>>)
    ensures var inits := CollectEntryInits(l, exports, names);
      && (forall i, j | 0 <= i < j < |inits| :: inits[i].execOrder <= inits[j].execOrder)
      && (forall x | x in inits :: IsFirstByName(l, exports, x))
      && (forall c :: IsCalled(l, inits, c) <==> IsWanted(l, exports, names, c))
      && CallsOnce(l, inits)
  {
    var qualifying := Qualifying(l, exports, names);
    var sorted := Sort(ByName, qualifying);
    var first := FirstPerCall(sorted);
    var inits := Sort(ByExecOrder, Inits(first));
    SameElements(sorted, qualifying);
    QualifyingFromTable(l, exports, names);
    FirstPerCallIsDistinct(sorted);
    ByExecOrderIsTotalPreorder();
    SortIsSorted(ByExecOrder, Inits(first));
    assert forall i, j | 0 <= i < j < |inits| :: ByExecOrder(inits[i], inits[j]);
    ByNameIsTotalPreorder();
    SortIsSorted(ByName, qualifying);
    InitsAreFirst(l, exports, names, sorted, inits);
    RearrangedCallsOnce(l, first, inits);
    assert Calls(sorted) == Calls(qualifying);
    forall c ensures IsCalled(l, inits, c) <==> IsWanted(l, exports, names, c) {
      CalledInits(l, first, inits, c);
      CallsAreWanted(l, exports, names, c);
    }
  }

  /** The sum of `f` over a bag of exports. */
  ghost function SumOf(f: Export -> multiset<Candidate>, bag: multiset<Export>): multiset<Candidate>
    decreases |bag|
  {
    if bag == multiset{} then multiset{}
    else
      var e :| e in bag;
      SumOf(f, bag - multiset{e}) + f(e)
  }

  lemma RemoveTwo<T>(bag: multiset<T>, d: T, e: T)
    requires d in bag && e in bag && d != e
    ensures e in bag - multiset{d} && d in bag - multiset{e}
    ensures bag - multiset{d} - multiset{e} == bag - multiset{e} - multiset{d}
    ensures |bag - multiset{d}| < |bag| && |bag - multiset{e}| < |bag|
  {
  }

  lemma SwapSummands<T>(rest: multiset<T>, x: multiset<T>, y: multiset<T>)
    ensures rest + x + y == rest + y + x
  {
  }

  lemma {:induction false} SumRemove(f: Export -> multiset<Candidate>, bag: multiset<Export>, e: Export)
    requires e in bag
    ensures SumOf(f, bag) == SumOf(f, bag - multiset{e}) + f(e)
    decreases |bag|
  {
    var d :| d in bag && SumOf(f, bag) == SumOf(f, bag - multiset{d}) + f(d);
    if d != e {
      RemoveTwo(bag, d, e);
      SumRemove(f, bag - multiset{d}, e);
      SumRemove(f, bag - multiset{e}, d);
      SwapSummands(SumOf(f, bag - multiset{d} - multiset{e}), f(e), f(d));
    }
  }

  function CandidateBag(l: Links, e: Export, names: Option<set<Symbol>>): multiset<Candidate> {
    var candidate := l.CandidateOf(e);
    if candidate.Some? && Available(names, candidate.value.call) then multiset{candidate.value} else multiset{}
  }

  lemma {:induction false} QualifyingMultiset(l: Links, s: seq<Export>, names: Option<set<Symbol>>,
      f: Export -> multiset<Candidate>)
    requires forall e :: f(e) == CandidateBag(l, e, names)
    ensures multiset(Qualifying(l, s, names)) == SumOf(f, multiset(s))
  {
    if s == [] {
      assert multiset(s) == multiset{};
    } else {
      var n := |s| - 1;
      assert s == s[..n] + [s[n]];
      QualifyingMultiset(l, s[..n], names, f);
      SumRemove(f, multiset(s), s[n]);
      assert multiset(s) - multiset{s[n]} == multiset(s[..n]);
    }
  }

  /** The result does not depend on the order in which the export map is iterated. */
  lemma IterationOrderIsIrrelevant(l: Links, exports: seq<Export>, permuted: seq<Export>, names: Option<set<Symbol>>)
    requires multiset(exports) == multiset(permuted) && DistinctNames(exports)
    ensures CollectEntryInits(l, exports, names) == CollectEntryInits(l, permuted, names)
  {
    var a, b := Qualifying(l, exports, names), Qualifying(l, permuted, names);
    var f := e => CandidateBag(l, e, names);
    QualifyingMultiset(l, exports, names, f);
    QualifyingMultiset(l, permuted, names, f);
    ByNameIsTotalPreorder();
    SortIsSorted(ByName, a);
    SortIsSorted(ByName, b);
    NoTiesByName(l, exports, names, Sort(ByName, a));
    SortedIsUnique(ByName, Sort(ByName, a), Sort(ByName, b));
  }
}
