/** The common base in terms of path segments: the segments that all paths begin with. */
module GlobSegments {
  import opened GlobPaths

  const SEPARATOR: nat := '/' as nat

  /** The pieces between slashes, always at least one. */
  function Segments(s: Bytes): (r: seq<Bytes>)
    ensures |r| > 0
  {
    if s == [] then [[]]
    else
      var front, b := Segments(s[..|s| - 1]), s[|s| - 1];
      var n := |front| - 1;
      if b == SEPARATOR then front + [[]] else front[..n] + [front[n] + [b]]
  }

  function Joined(segments: seq<Bytes>): Bytes {
    if segments == [] then []
    else if |segments| == 1 then segments[0]
    else Joined(segments[..|segments| - 1]) + [SEPARATOR] + segments[|segments| - 1]
  }

  lemma JoinedMore(segments: seq<Bytes>, last: Bytes)
    ensures Joined(segments + [last]) == if segments == [] then last else Joined(segments) + [SEPARATOR] + last
  {
    assert (segments + [last])[..|segments|] == segments;
  }

  lemma Associate(a: Bytes, b: Bytes, c: Bytes)
    ensures a + (b + c) == a + b + c
  {
  }

  /** One more byte in the last segment. */
  lemma JoinedLonger(segments: seq<Bytes>, last: Bytes, b: nat)
    ensures Joined(segments + [last + [b]]) == Joined(segments + [last]) + [b]
  {
    JoinedMore(segments, last + [b]);
    JoinedMore(segments, last);
    Associate(Joined(segments) + [SEPARATOR], last, [b]);
  }

  lemma {:induction false} JoinSegments(s: Bytes)
    ensures Joined(Segments(s)) == s
  {
    if s != [] {
      var front, b := s[..|s| - 1], s[|s| - 1];
      JoinSegments(front);
      assert s == front + [b];
      if b == SEPARATOR {
        JoinedMore(Segments(front), []);
        assert front + [SEPARATOR] + [] == front + [b];
      } else {
        var n := |Segments(front)| - 1;
        assert Segments(front) == Segments(front)[..n] + [Segments(front)[n]];
        JoinedLonger(Segments(front)[..n], Segments(front)[n], b);
      }
    }
  }

  lemma {:induction false} JoinedGrows(segments: seq<Bytes>, j: nat, k: nat)
    requires 1 <= j < k <= |segments|
    ensures |Joined(segments[..j])| < |Joined(segments[..k])|
    decreases k
  {
    assert segments[..k] == segments[..k - 1] + [segments[k - 1]];
    JoinedMore(segments[..k - 1], segments[k - 1]);
    if j < k - 1 {
      JoinedGrows(segments, j, k - 1);
    }
  }

  // ---- Boundaries -------------------------------------------------------------------------

  /** The first `k` segments end at byte `e`. */
  ghost predicate EndsSegments(s: Bytes, k: nat, e: nat) {
    && 1 <= k <= |Segments(s)| && e <= |s|
    && Segments(s[..e]) == Segments(s)[..k] && (e < |s| ==> k < |Segments(s)|)
  }

  /** A boundary is the end of some segments. */
  lemma {:induction false} BoundaryEndsSegments(s: Bytes, e: nat) returns (k: nat)
    requires IsBoundary(s, e)
    ensures EndsSegments(s, k, e)
    decreases |s|
  {
    if e == |s| {
      k := |Segments(s)|;
      assert s[..e] == s;
    } else {
      var n := |s| - 1;
      var front := s[..n];
      assert front[..e] == s[..e];
      if e == n {
        k := |Segments(front)|;
        assert front[..n] == front;
      } else {
        k := BoundaryEndsSegments(front, e);
      }
    }
  }

  /** Some segments end at a boundary. */
  lemma {:induction false} SegmentsEndAtBoundary(s: Bytes, k: nat)
    requires 1 <= k <= |Segments(s)|
    ensures var x := Joined(Segments(s)[..k]);
      |x| <= |s| && s[..|x|] == x && IsBoundary(s, |x|) && EndsSegments(s, k, |x|)
    decreases |s|
  {
    JoinSegments(s);
    if k == |Segments(s)| {
      assert Segments(s)[..k] == Segments(s) && s[..|s|] == s;
    } else {
      var n := |s| - 1;
      var front := s[..n];
      assert Segments(s)[..k] == Segments(front)[..k];
      SegmentsEndAtBoundary(front, k);
      var x := Joined(Segments(s)[..k]);
      assert s[..|x|] == front[..|x|];
    }
  }

  // ---- Shared segments --------------------------------------------------------------------

  /** All paths begin with the same `k` segments. */
  ghost predicate ShareSegments(paths: seq<Bytes>, k: nat)
    requires paths != []
  {
    forall p {:trigger BeginsAs(paths[0], p, k)} | p in paths :: BeginsAs(paths[0], p, k)
  }

  ghost predicate BeginsAs(first: Bytes, p: Bytes, k: nat) {
    k <= |Segments(first)| && k <= |Segments(p)| && Segments(first)[..k] == Segments(p)[..k]
  }

  lemma SameLength(s: Bytes, k: nat, j: nat, e: nat)
    requires EndsSegments(s, k, e) && EndsSegments(s, j, e)
    ensures k == j
  {
    assert |Segments(s)[..k]| == k && |Segments(s)[..j]| == j;
  }

  lemma SharesIff(first: Bytes, p: Bytes, k: nat)
    requires 1 <= k <= |Segments(first)|
    ensures Shares(first, p, |Joined(Segments(first)[..k])|) <==> BeginsAs(first, p, k)
  {
    var e := |Joined(Segments(first)[..k])|;
    SegmentsEndAtBoundary(first, k);
    if Shares(first, p, e) {
      var j := BoundaryEndsSegments(p, e);
      assert |Segments(p)[..j]| == |Segments(first)[..k]|;
    }
    if BeginsAs(first, p, k) {
      SegmentsEndAtBoundary(p, k);
    }
  }

  lemma CommonBaseIff(paths: seq<Bytes>, k: nat)
    requires paths != [] && 1 <= k <= |Segments(paths[0])|
    ensures IsCommonBase(paths, |Joined(Segments(paths[0])[..k])|) <==> ShareSegments(paths, k)
  {
    var first, e := paths[0], |Joined(Segments(paths[0])[..k])|;
    forall p | p in paths ensures Shares(first, p, e) <==> BeginsAs(first, p, k) {
      SharesIff(first, p, k);
    }
    if ShareSegments(paths, k) {
      forall p {:trigger Shares(first, p, e)} | p in paths ensures Shares(first, p, e) {
        assert BeginsAs(first, p, k);
      }
    }
    if IsCommonBase(paths, e) {
      forall p {:trigger BeginsAs(first, p, k)} | p in paths ensures BeginsAs(first, p, k) {
        assert Shares(first, p, e);
      }
    }
  }

  lemma BaseOfSegments(paths: seq<Bytes>, e: nat) returns (k: nat)
    requires paths != [] && IsCommonBase(paths, e)
    ensures 1 <= k <= |Segments(paths[0])| && e == |Joined(Segments(paths[0])[..k])| <= |paths[0]|
  {
    var first := paths[0];
    assert first in paths && Shares(first, first, e);
    k := BoundaryEndsSegments(first, e);
    JoinSegments(first[..e]);
  }

  lemma SharedLength(paths: seq<Bytes>, k: nat)
    requires paths != [] && ShareSegments(paths, k)
    ensures k <= |Segments(paths[0])|
  {
    assert paths[0] in paths && BeginsAs(paths[0], paths[0], k);
  }

  /** The longest common base is the segments that all paths begin with, and the project root if these are none, or
      only the empty one in front of a leading slash. */
  lemma BaseIsSharedSegments(root: Bytes, paths: seq<Bytes>, end: nat, k: nat)
    requires paths != [] && IsLongestBase(paths, end)
    requires ShareSegments(paths, k) && forall j: nat | j > k :: !ShareSegments(paths, j)
    ensures k <= |Segments(paths[0])|
    ensures var base := Joined(Segments(paths[0])[..k]);
      BaseOf(root, paths[0], end) == if base == [] then root else base
  {
    var first := paths[0];
    SharedLength(paths, k);
    if k > 0 {
      var e := |Joined(Segments(first)[..k])|;
      CommonBaseIff(paths, k);
      SegmentsEndAtBoundary(first, k);
      assert IsCommonBase(paths, e);
    }
    if end > 0 {
      var j := BaseOfSegments(paths, end);
      CommonBaseIff(paths, j);
      if j < k {
        JoinedGrows(Segments(first), j, k);
      }
    }
  }
}
