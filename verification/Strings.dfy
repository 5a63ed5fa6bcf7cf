/** Strings, ordered as Rust orders them: by their first difference, a proper prefix first. */
module Strings {

  predicate StringLe(a: string, b: string) {
    if a == [] then true
    else if b == [] then false
    else if a[0] != b[0] then a[0] < b[0]
    else StringLe(a[1..], b[1..])
  }

  lemma {:induction false} StringLeTotal(a: string, b: string)
    ensures StringLe(a, b) || StringLe(b, a)
  {
    if a != [] && b != [] && a[0] == b[0] {
      StringLeTotal(a[1..], b[1..]);
    }
  }

  lemma {:induction false} StringLeTransitive(a: string, b: string, c: string)
    requires StringLe(a, b) && StringLe(b, c)
    ensures StringLe(a, c)
  {
    if a != [] && b != [] && c != [] && a[0] == b[0] == c[0] {
      StringLeTransitive(a[1..], b[1..], c[1..]);
    }
  }

  lemma {:induction false} StringLeAntisymmetric(a: string, b: string)
    requires StringLe(a, b) && StringLe(b, a)
    ensures a == b
  {
    if a != [] && b != [] {
      StringLeAntisymmetric(a[1..], b[1..]);
      assert a == [a[0]] + a[1..] && b == [b[0]] + b[1..];
    }
  }

  /** `a` is a proper prefix of `b`, or smaller at their first difference, which is at `k`. */
  predicate DifferAt(a: string, b: string, k: nat) {
    k <= |a| && k < |b| && a[..k] == b[..k] && (k < |a| ==> a[k] < b[k])
  }

  ghost predicate ComesBefore(a: string, b: string) {
    exists k: nat :: DifferAt(a, b, k)
  }

  lemma {:induction false} BeforeIsLess(a: string, b: string, k: nat)
    requires DifferAt(a, b, k)
    ensures StringLe(a, b) && a != b
    decreases k
  {
    if k > 0 {
      assert a[..k][0] == b[..k][0];
      assert a[1..][..k - 1] == a[..k][1..] && b[1..][..k - 1] == b[..k][1..];
      BeforeIsLess(a[1..], b[1..], k - 1);
    }
  }

  lemma {:induction false} LessIsBefore(a: string, b: string) returns (k: nat)
    requires StringLe(a, b) && a != b
    ensures DifferAt(a, b, k)
  {
    if a == [] || a[0] != b[0] {
      k := 0;
    } else {
      assert a == [a[0]] + a[1..] && b == [b[0]] + b[1..];
      var rest := LessIsBefore(a[1..], b[1..]);
      k := rest + 1;
      assert a[..k] == [a[0]] + a[1..][..rest] && b[..k] == [b[0]] + b[1..][..rest];
    }
  }

  lemma NotBeforeItself(a: string)
    ensures !ComesBefore(a, a)
  {
    assert forall k: nat :: !DifferAt(a, a, k);
  }

  /** The order is by the first difference, a proper prefix first. */
  lemma StringLeIff(a: string, b: string)
    ensures StringLe(a, b) <==> a == b || ComesBefore(a, b)
  {
    if a == b {
      StringLeTotal(a, b);
    } else if StringLe(a, b) {
      var k := LessIsBefore(a, b);
    }
    if k: nat :| DifferAt(a, b, k) {
      BeforeIsLess(a, b, k);
    }
  }
}
