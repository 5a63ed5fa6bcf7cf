/** Sizes of finite sets. */
module Sets {

  lemma {:induction false} SubsetCard<T>(a: set<T>, b: set<T>)
    requires a <= b
    ensures |a| <= |b|
  {
    if a != {} {
      var x :| x in a;
      SubsetCard(a - {x}, b - {x});
    }
  }

  // What a search over the indices below `n` has not visited yet.

  predicate IsIndex(n: nat, m: nat) {
    m < n
  }

  ghost function Indices(n: nat): set<nat> {
    set m: nat | m < n && IsIndex(n, m)
  }

  ghost function Unvisited(n: nat, visited: set<nat>): set<nat> {
    Indices(n) - visited
  }

  lemma VisitLowers(n: nat, visited: set<nat>, m: nat)
    requires m < n && m !in visited
    ensures |Unvisited(n, visited + {m})| < |Unvisited(n, visited)|
  {
    assert Unvisited(n, visited + {m}) == Unvisited(n, visited) - {m};
  }

  lemma MoreVisitedIsLess(n: nat, before: set<nat>, after: set<nat>)
    requires before <= after
    ensures |Unvisited(n, after)| <= |Unvisited(n, before)|
  {
    SubsetCard(Unvisited(n, after), Unvisited(n, before));
  }
}
