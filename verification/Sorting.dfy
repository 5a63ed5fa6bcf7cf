/** Stable sorting by a total preorder. */
module Sorting {

  ghost predicate TotalPreorder<T(!new)>(le: (T, T) -> bool) {
    && (forall x, y :: le(x, y) || le(y, x))
    && (forall x, y, z :: le(x, y) && le(y, z) ==> le(x, z))
  }

  ghost predicate SortedBy<T>(le: (T, T) -> bool, s: seq<T>) {
    forall i, j | 0 <= i < j < |s| :: le(s[i], s[j])
  }

  /** Insert after every element that is not greater. */
  function Insert<T>(le: (T, T) -> bool, s: seq<T>, x: T): (r: seq<T>)
    ensures multiset(r) == multiset(s) + multiset{x}
  {
    if s == [] || le(s[|s| - 1], x) then s + [x]
    else
      var n := |s| - 1;
      assert s == s[..n] + [s[n]];
      Insert(le, s[..n], x) + [s[n]]
  }

  function Sort<T>(le: (T, T) -> bool, s: seq<T>): (r: seq<T>)
    ensures multiset(r) == multiset(s) && |r| == |s|
  {
    if s == [] then []
    else
      var n := |s| - 1;
      assert s == s[..n] + [s[n]];
      var r := Insert(le, Sort(le, s[..n]), s[n]);
      assert |multiset(r)| == |r| && |multiset(s)| == |s|;
      r
  }

  lemma SortedAppend<T>(le: (T, T) -> bool, s: seq<T>, x: T)
    requires SortedBy(le, s) && forall y | y in s :: le(y, x)
    ensures SortedBy(le, s + [x])
  {
  }

  lemma AllBelowLast<T(!new)>(le: (T, T) -> bool, s: seq<T>, x: T)
    requires TotalPreorder(le) && SortedBy(le, s) && s != [] && le(s[|s| - 1], x)
    ensures forall y | y in s :: le(y, x)
  {
    forall y | y in s ensures le(y, x) {
      var i :| 0 <= i < |s| && s[i] == y;
      assert le(y, s[|s| - 1]);
    }
  }

  lemma InsertedElements<T>(le: (T, T) -> bool, s: seq<T>, x: T)
    ensures forall y | y in Insert(le, s, x) :: y == x || y in s
  {
    forall y | y in Insert(le, s, x) ensures y == x || y in s {
      assert y in multiset(Insert(le, s, x));
    }
  }

  lemma {:induction false} InsertKeepsSorted<T(!new)>(le: (T, T) -> bool, s: seq<T>, x: T)
    requires TotalPreorder(le) && SortedBy(le, s)
    ensures SortedBy(le, Insert(le, s, x))
  {
    if s == [] {
    } else if le(s[|s| - 1], x) {
      AllBelowLast(le, s, x);
      SortedAppend(le, s, x);
    } else {
      var n := |s| - 1;
      assert le(s[n], s[n]);
      InsertKeepsSorted(le, s[..n], x);
      InsertedElements(le, s[..n], x);
      SortedAppend(le, Insert(le, s[..n], x), s[n]);
    }
  }

  lemma {:induction false} SortIsSorted<T(!new)>(le: (T, T) -> bool, s: seq<T>)
    requires TotalPreorder(le)
    ensures SortedBy(le, Sort(le, s))
  {
    if s != [] {
      SortIsSorted(le, s[..|s| - 1]);
      InsertKeepsSorted(le, Sort(le, s[..|s| - 1]), s[|s| - 1]);
    }
  }

  lemma SameElements<T>(s: seq<T>, t: seq<T>)
    requires multiset(s) == multiset(t)
    ensures forall x :: x in s <==> x in t
  {
    forall x ensures x in s <==> x in t {
      assert x in s <==> x in multiset(s);
      assert x in t <==> x in multiset(t);
    }
  }

  lemma LastIsGreatest<T(!new)>(le: (T, T) -> bool, s: seq<T>, x: T)
    requires TotalPreorder(le) && SortedBy(le, s) && x in s
    ensures le(x, s[|s| - 1])
  {
    var i :| 0 <= i < |s| && s[i] == x;
    assert le(x, x);
  }

  ghost predicate NoTies<T>(le: (T, T) -> bool, s: seq<T>) {
    forall x, y | x in s && y in s && le(x, y) && le(y, x) :: x == y
  }

  lemma DropLast<T>(s: seq<T>)
    requires s != []
    ensures multiset(s[..|s| - 1]) == multiset(s) - multiset{s[|s| - 1]}
  {
    assert s == s[..|s| - 1] + [s[|s| - 1]];
  }

  lemma SameLast<T(!new)>(le: (T, T) -> bool, s: seq<T>, t: seq<T>)
    requires TotalPreorder(le) && SortedBy(le, s) && SortedBy(le, t) && multiset(s) == multiset(t)
    requires NoTies(le, s) && s != [] && t != []
    ensures s[|s| - 1] == t[|t| - 1]
  {
    SameElements(s, t);
    var x, y := s[|s| - 1], t[|t| - 1];
    assert x in s && y in t;
    LastIsGreatest(le, s, y);
    LastIsGreatest(le, t, x);
  }

  lemma NoTiesInFront<T>(le: (T, T) -> bool, s: seq<T>)
    requires NoTies(le, s) && s != []
    ensures NoTies(le, s[..|s| - 1])
  {
    assert forall x | x in s[..|s| - 1] :: x in s;
  }

  lemma SortedFront<T>(le: (T, T) -> bool, s: seq<T>)
    requires SortedBy(le, s) && s != []
    ensures SortedBy(le, s[..|s| - 1])
  {
  }

  lemma SameLength<T>(s: seq<T>, t: seq<T>)
    requires multiset(s) == multiset(t)
    ensures |s| == |t|
  {
    assert |s| == |multiset(s)| && |t| == |multiset(t)|;
  }

  lemma JoinLast<T>(s: seq<T>, t: seq<T>)
    requires |s| == |t| > 0 && s[..|s| - 1] == t[..|t| - 1] && s[|s| - 1] == t[|t| - 1]
    ensures s == t
  {
    assert s == s[..|s| - 1] + [s[|s| - 1]] && t == t[..|t| - 1] + [t[|t| - 1]];
  }

  /** Two sorted arrangements of the same elements, no two of which tie. */
  ghost predicate Arrangements<T(!new)>(le: (T, T) -> bool, s: seq<T>, t: seq<T>) {
    TotalPreorder(le) && SortedBy(le, s) && SortedBy(le, t) && multiset(s) == multiset(t) && NoTies(le, s)
  }

  lemma FrontArrangements<T(!new)>(le: (T, T) -> bool, s: seq<T>, t: seq<T>)
    requires Arrangements(le, s, t) && |s| == |t| > 0
    ensures Arrangements(le, s[..|s| - 1], t[..|t| - 1]) && s[|s| - 1] == t[|t| - 1]
  {
    SameLast(le, s, t);
    DropLast(s);
    DropLast(t);
    NoTiesInFront(le, s);
    SortedFront(le, s);
    SortedFront(le, t);
  }

  lemma {:induction false} ArrangementsAgree<T(!new)>(le: (T, T) -> bool, s: seq<T>, t: seq<T>)
    requires Arrangements(le, s, t)
    ensures s == t
  {
    SameLength(s, t);
    if s != [] {
      FrontArrangements(le, s, t);
      ArrangementsAgree(le, s[..|s| - 1], t[..|t| - 1]);
      JoinLast(s, t);
    }
  }

  /** Two sorted arrangements of the same elements agree when no two elements tie. */
  lemma SortedIsUnique<T(!new)>(le: (T, T) -> bool, s: seq<T>, t: seq<T>)
    requires TotalPreorder(le) && SortedBy(le, s) && SortedBy(le, t) && multiset(s) == multiset(t)
    requires NoTies(le, s)
    ensures s == t
  {
    ArrangementsAgree(le, s, t);
  }

  ghost predicate Distinct<T>(s: seq<T>) {
    forall i, j | 0 <= i < j < |s| :: s[i] != s[j]
  }

  lemma {:induction false} DistinctCounts<T>(s: seq<T>, x: T)
    requires Distinct(s)
    ensures multiset(s)[x] <= 1
  {
    if s != [] {
      var n := |s| - 1;
      assert s == s[..n] + [s[n]];
      DistinctCounts(s[..n], x);
      if x == s[n] {
        assert x !in s[..n];
      }
    }
  }

  lemma {:induction false} CountsAreDistinct<T>(s: seq<T>, i: nat, j: nat)
    requires i < j < |s| && multiset(s)[s[i]] <= 1
    ensures s[i] != s[j]
  {
    var x := s[i];
    assert s == s[..j] + s[j..] && s[..j][i] == x;
    assert multiset(s)[x] == multiset(s[..j])[x] + multiset(s[j..])[x];
    assert x in s[..j];
    assert s[j] in s[j..] by {
      assert s[j..][0] == s[j];
    }
  }

  /** A rearrangement of distinct elements has distinct elements. */
  lemma RearrangedIsDistinct<T>(s: seq<T>, t: seq<T>)
    requires Distinct(s) && multiset(s) == multiset(t)
    ensures Distinct(t)
  {
    forall i, j | 0 <= i < j < |t| ensures t[i] != t[j] {
      DistinctCounts(s, t[i]);
      CountsAreDistinct(t, i, j);
    }
  }
}
