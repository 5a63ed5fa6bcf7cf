/** The literal part of a glob: its split from the pattern, its escaping, and the common base. */
module GlobPaths {
  import opened Wrappers

  /** A UTF-8 text by its bytes. */
  type Bytes = seq<nat>

  const SLASH: nat := 0x2F
  const BACKSLASH: nat := 0x5C

  // ---- The common base --------------------------------------------------------------------

  /** The first `e` bytes end at a segment boundary of the path. */
  predicate IsBoundary(path: Bytes, e: nat) {
    e <= |path| && (e == |path| || path[e] == SLASH)
  }

  /** Both paths share these `e` bytes, which end at a segment boundary of each. */
  predicate Shares(first: Bytes, path: Bytes, e: nat) {
    IsBoundary(first, e) && IsBoundary(path, e) && first[..e] == path[..e]
  }

  ghost predicate IsCommonBase(paths: seq<Bytes>, e: nat)
    requires paths != []
  {
    forall p {:trigger Shares(paths[0], p, e)} | p in paths :: Shares(paths[0], p, e)
  }

  /** The longest non-empty common base, 0 if there is none. */
  ghost predicate IsLongestBase(paths: seq<Bytes>, end: nat)
    requires paths != []
  {
    && (end > 0 ==> IsCommonBase(paths, end))
    && forall e: nat | e > end :: !IsCommonBase(paths, e)
  }

  lemma SamePrefix(a: Bytes, b: Bytes, e: nat, i: nat)
    requires i < e <= |a| && e <= |b| && a[..e] == b[..e]
    ensures a[i] == b[i]
  {
    assert a[..e][i] == b[..e][i];
  }

  /** The longest boundary up to `limit` that two paths share, 0 if there is none. */
  method SharedBoundary(first: Bytes, path: Bytes, limit: nat) returns (end: nat)
    requires IsBoundary(first, limit)
    ensures end <= limit && (end > 0 ==> Shares(first, path, end))
    ensures forall e: nat | end < e <= limit :: !Shares(first, path, e)
  {
    var maxLen := if limit <= |path| then limit else |path|;
    var i, lastSlash := 0, 0;
    while i < maxLen && first[i] == path[i]
      invariant lastSlash <= i <= maxLen && first[..i] == path[..i]
      invariant lastSlash > 0 ==> Shares(first, path, lastSlash) && lastSlash < i
      invariant forall e: nat | lastSlash < e < i :: !Shares(first, path, e)
    {
      if first[i] == SLASH {
        lastSlash := i;
      }
      i := i + 1;
    }
    if i == maxLen && (i == |first| || first[i] == SLASH) && (i == |path| || path[i] == SLASH) {
      lastSlash := i;
    }
    end := lastSlash;
    forall e: nat | end < e <= limit ensures !Shares(first, path, e) {
      if i < maxLen && e > i && Shares(first, path, e) {
        SamePrefix(first, path, e, i);
      }
    }
  }

  /** A boundary that the first path has below one of its shared boundaries is shared too. */
  lemma SharesBelow(first: Bytes, path: Bytes, limit: nat, e: nat)
    requires Shares(first, path, limit) && e <= limit && IsBoundary(first, e)
    ensures Shares(first, path, e)
  {
    assert first[..e] == first[..limit][..e] && path[..e] == path[..limit][..e];
    if e < limit {
      assert first[e] == first[..limit][e] && path[e] == path[..limit][e];
    }
  }

  lemma LongestBaseStep(paths: seq<Bytes>, k: nat, limit: nat, end: nat)
    requires 0 < k < |paths| && IsLongestBase(paths[..k], limit)
    requires end <= limit && (end > 0 ==> Shares(paths[0], paths[k], end))
    requires forall e: nat | end < e <= limit :: !Shares(paths[0], paths[k], e)
    ensures IsLongestBase(paths[..k + 1], end)
  {
    var now, before := paths[..k + 1], paths[..k];
    assert now == before + [paths[k]] && now[0] == before[0] == paths[0];
    if end > 0 {
      forall p | p in now ensures Shares(now[0], p, end) {
        if p in before {
          assert Shares(before[0], p, limit);
          SharesBelow(paths[0], p, limit, end);
        }
      }
    }
    forall e: nat | e > end ensures !IsCommonBase(now, e) {
      if e > limit {
        assert !IsCommonBase(before, e);
        var p :| p in before && !Shares(before[0], p, e);
        assert p in now;
      } else {
        assert paths[k] in now && !Shares(now[0], paths[k], e);
      }
    }
  }

  lemma OnePath(p: Bytes)
    ensures IsLongestBase([p], |p|)
  {
    forall e: nat | e > |p| ensures !IsCommonBase([p], e) {
      assert p in [p] && !Shares([p][0], p, e);
    }
  }

  lemma NoBaseStays(paths: seq<Bytes>, k: nat)
    requires 0 < k <= |paths| && IsLongestBase(paths[..k], 0)
    ensures IsLongestBase(paths, 0)
  {
    forall e: nat | e > 0 ensures !IsCommonBase(paths, e) {
      assert !IsCommonBase(paths[..k], e);
      var p :| p in paths[..k] && !Shares(paths[..k][0], p, e);
      assert p in paths && paths[..k][0] == paths[0];
    }
  }

  /** The longest prefix that ends at a segment boundary in every path; the project root when there
      are no paths or that prefix is empty. */
  method GetCommonBase(root: Bytes, paths: seq<Bytes>) returns (base: Bytes)
    ensures paths == [] ==> base == root
    ensures paths != [] ==> exists end: nat :: IsLongestBase(paths, end) && base == BaseOf(root, paths[0], end)
  {
    if paths == [] {
      return root;
    }
    var first := paths[0];
    var end: nat := |first|;
    assert paths[..1] == [first];
    OnePath(first);
    var k := 1;
    while k < |paths|
      invariant 1 <= k <= |paths| && IsBoundary(first, end)
      invariant IsLongestBase(paths[..k], end)
    {
      var next := SharedBoundary(first, paths[k], end);
      LongestBaseStep(paths, k, end, next);
      end := next;
      k := k + 1;
      if end == 0 {
        break;
      }
    }
    assert paths[..|paths|] == paths;
    if end == 0 {
      NoBaseStays(paths, k);
    }
    assert IsLongestBase(paths, end);
    base := if end == 0 then root else first[..end];
  }

  function BaseOf(root: Bytes, first: Bytes, end: nat): Bytes {
    if 0 < end <= |first| then first[..end] else root
  }

  // ---- Splitting a resolved glob ----------------------------------------------------------

  datatype PathWithGlob = PathWithGlob(path: Bytes, glob: Bytes)

  predicate IsSyntax(b: nat) {
    b == BACKSLASH || b == 0x2A || b == 0x3F || b == 0x5B || b == 0x5D || b == 0x7B || b == 0x7D
  }

  /** What the glob engine takes for syntax. */
  predicate IsGlobChar(b: nat) {
    b < 128 && b as char in "\\*?[]{}"
  }

  lemma SyntaxIsGlobChar()
    ensures forall b: nat :: IsSyntax(b) <==> IsGlobChar(b)
  {
  }

  /** The bytes that continue a UTF-8 sequence. */
  predicate IsContinuation(b: nat) {
    0x80 <= b < 0xC0
  }

  /** `str::is_char_boundary`; slicing a text anywhere else panics. */
  predicate IsCharBoundary(s: Bytes, i: nat)
    requires i <= |s|
  {
    i == 0 || i == |s| || !IsContinuation(s[i])
  }

  /** A text never begins inside a character. */
  predicate IsText(s: Bytes) {
    s != [] ==> !IsContinuation(s[0])
  }

  ghost predicate IsCommonSuffix(a: Bytes, b: Bytes, n: nat) {
    n <= |a| && n <= |b| && a[|a| - n..] == b[|b| - n..]
  }

  ghost predicate IsLongestCommonSuffix(a: Bytes, b: Bytes, n: nat) {
    IsCommonSuffix(a, b, n) && forall m: nat | m > n :: !IsCommonSuffix(a, b, m)
  }

  method CommonSuffix(path: Bytes, glob: Bytes) returns (n: nat)
    ensures IsLongestCommonSuffix(path, glob, n)
  {
    n := 0;
    var most := if |path| <= |glob| then |path| else |glob|;
    while n < most && path[|path| - 1 - n] == glob[|glob| - 1 - n]
      invariant n <= most && IsCommonSuffix(path, glob, n)
    {
      n := n + 1;
      assert path[|path| - n..] == [path[|path| - n]] + path[|path| - (n - 1)..];
      assert glob[|glob| - n..] == [glob[|glob| - n]] + glob[|glob| - (n - 1)..];
    }
    forall m: nat | m > n ensures !IsCommonSuffix(path, glob, m) {
      if n < most && IsCommonSuffix(path, glob, m) {
        SuffixAgrees(path, glob, m, n);
      }
    }
  }

  lemma SuffixAgrees(a: Bytes, b: Bytes, m: nat, n: nat)
    requires IsCommonSuffix(a, b, m) && n < m
    ensures a[|a| - 1 - n] == b[|b| - 1 - n]
  {
    assert a[|a| - m..][m - 1 - n] == b[|b| - m..][m - 1 - n];
  }

  /** How many bytes to hand to the pattern: from the last slash before the first glob character, or
      everything when there is none. */
  method FindGlobSyntax(s: Bytes) returns (n: nat)
    ensures n <= |s| && (n == 0 <==> s == [])
    ensures n < |s| ==> s[|s| - n] == SLASH
    ensures forall i | 0 <= i < |s| - n :: !IsGlobChar(s[i])
    ensures forall i | |s| - n < i < |s| && s[i] == SLASH :: exists j | 0 <= j < i :: IsGlobChar(s[j])
  {
    SyntaxIsGlobChar();
    var lastSlash := 0;
    for i := 0 to |s|
      invariant 0 <= lastSlash <= i && (lastSlash > 0 ==> lastSlash < i && s[lastSlash] == SLASH)
      invariant forall k | 0 <= k < i :: !IsSyntax(s[k])
      invariant forall k | lastSlash < k < i :: s[k] != SLASH
    {
      if s[i] == SLASH {
        lastSlash := i;
      } else if IsSyntax(s[i]) {
        return |s| - lastSlash;
      }
    }
    return |s| - lastSlash;
  }

  /** What a split hands out, for a common suffix of `common` bytes. */
  ghost predicate IsSplit(path: Bytes, common: nat, v: PathWithGlob)
    requires common <= |path|
  {
    && v.path + v.glob == path && |v.glob| <= common
    && (forall i | |path| - common <= i < |v.path| :: !IsGlobChar(path[i]))
    && (|v.glob| < common ==> v.glob != [] && v.glob[0] == SLASH)
  }

  lemma SplitAt(path: Bytes, glob: Bytes, common: nat, i: nat)
    requires IsCommonSuffix(path, glob, common) && i <= common
    requires var suffix := glob[|glob| - common..];
      && (i == 0 <==> suffix == []) && (i < common ==> suffix[common - i] == SLASH)
      && forall k | 0 <= k < common - i :: !IsGlobChar(suffix[k])
    ensures IsSplit(path, common, PathWithGlob(path[..|path| - i], glob[|glob| - i..]))
  {
    var suffix := glob[|glob| - common..];
    assert glob[|glob| - i..] == suffix[common - i..];
    assert path[|path| - i..] == path[|path| - common..][common - i..];
    forall k | |path| - common <= k < |path| - i ensures !IsGlobChar(path[k]) {
      assert path[k] == path[|path| - common..][k - (|path| - common)];
    }
  }

  /** Cutting where the pattern begins never falls inside a character. */
  lemma CutIsClean(path: Bytes, glob: Bytes, common: nat, i: nat)
    requires IsText(path) && IsText(glob) && IsCommonSuffix(path, glob, common) && i <= common
    requires IsCharBoundary(glob, |glob| - common)
    requires i < common ==> i > 0 && glob[|glob| - i] == SLASH
    ensures IsCharBoundary(path, |path| - i) && IsCharBoundary(glob, |glob| - i)
  {
    if 0 < i {
      SuffixAgrees(path, glob, common, i - 1);
    }
  }

  /** The split keeps the text: the literal path followed by the pattern is the resolved glob. It fails
      exactly if the longest common suffix of the two begins inside a character. */
  method Split(path: Bytes, glob: Bytes) returns (r: Option<PathWithGlob>)
    requires IsText(path) && IsText(glob)
    ensures forall common | IsLongestCommonSuffix(path, glob, common) ::
              && (r.Some? <==> IsCharBoundary(glob, |glob| - common))
              && (r.Some? ==> IsSplit(path, common, r.value))
  {
    var j := CommonSuffix(path, glob);
    assert forall common | IsLongestCommonSuffix(path, glob, common) :: common == j by {
      assert IsCommonSuffix(path, glob, j);
    }
    if !IsCharBoundary(glob, |glob| - j) {
      return None;
    }
    var i := FindGlobSyntax(glob[|glob| - j..]);
    SplitAt(path, glob, j, i);
    CutIsClean(path, glob, j, i);
    r := Some(PathWithGlob(path[..|path| - i], glob[|glob| - i..]));
  }

  /** Two texts whose last characters share only their last byte: the split panics. */
  lemma SplitCanFail()
    ensures var path, glob := [SLASH, 0xC3, 0xA9], [0xC5, 0xA9];
      IsText(path) && IsText(glob) && IsLongestCommonSuffix(path, glob, 1) && !IsCharBoundary(glob, |glob| - 1)
  {
    var path, glob := [SLASH, 0xC3, 0xA9], [0xC5, 0xA9];
    assert path[2..] == glob[1..] == [0xA9];
    assert path[1..][0] != glob[0..][0];
  }

  // ---- Escaping ---------------------------------------------------------------------------

  method ToAbsoluteGlob(v: PathWithGlob) returns (glob: Bytes)
    ensures glob == Escaped(v.path) + v.glob
  {
    glob := [];
    for i := 0 to |v.path|
      invariant glob == Escaped(v.path[..i])
    {
      assert v.path[..i + 1][..i] == v.path[..i];
      if IsSyntax(v.path[i]) {
        glob := glob + [BACKSLASH];
      }
      glob := glob + [v.path[i]];
    }
    assert v.path[..|v.path|] == v.path;
    glob := glob + v.glob;
  }

  function Escaped(path: Bytes): Bytes {
    if path == [] then []
    else
      var b := path[|path| - 1];
      Escaped(path[..|path| - 1]) + if IsSyntax(b) then [BACKSLASH, b] else [b]
  }

  /** What a glob without wildcards matches: a backslash makes the next byte literal. `None` when there
      is a wildcard. */
  function LiteralOf(glob: Bytes): Option<Bytes>
    decreases |glob|
  {
    if glob == [] then Some([])
    else if glob[0] == BACKSLASH then
      if |glob| == 1 then None
      else
        var rest := LiteralOf(glob[2..]);
        if rest.None? then None else Some([glob[1]] + rest.value)
    else if IsGlobChar(glob[0]) then None
    else
      var rest := LiteralOf(glob[1..]);
      if rest.None? then None else Some([glob[0]] + rest.value)
  }

  lemma {:induction false} LiteralOfJoin(a: Bytes, b: Bytes)
    requires LiteralOf(a).Some? && LiteralOf(b).Some?
    ensures LiteralOf(a + b) == Some(LiteralOf(a).value + LiteralOf(b).value)
    decreases |a|
  {
    if a == [] {
      assert a + b == b && [] + LiteralOf(b).value == LiteralOf(b).value;
    } else {
      var n := if a[0] == BACKSLASH then 2 else 1;
      assert (a + b)[n..] == a[n..] + b && (a + b)[0] == a[0] && (a + b)[n - 1] == a[n - 1];
      LiteralOfJoin(a[n..], b);
      assert [a[n - 1]] + (LiteralOf(a[n..]).value + LiteralOf(b).value) == LiteralOf(a).value + LiteralOf(b).value;
    }
  }

  /** The escaped path matches the path itself, and nothing else. */
  lemma {:induction false} EscapedIsLiteral(path: Bytes)
    ensures LiteralOf(Escaped(path)) == Some(path)
  {
    if path != [] {
      var b, front := path[|path| - 1], path[..|path| - 1];
      var last := if IsSyntax(b) then [BACKSLASH, b] else [b];
      SyntaxIsGlobChar();
      EscapedIsLiteral(front);
      assert last[|last|..] == [];
      assert LiteralOf(last) == Some([b] + []);
      assert [b] + [] == [b];
      LiteralOfJoin(Escaped(front), last);
      assert path == front + [b];
    }
  }
}
