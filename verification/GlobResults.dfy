/** The files a walk finds, told by the paths they are shown under. */
module GlobResults {
  import opened GlobWalk
  import opened Wrappers

  // ---- What a path leads to ---------------------------------------------------------------

  /** From the directory `dir`, the names lead over subdirectories and links, none of them hidden, to the file. */
  ghost predicate Resolves(t: Tree, dir: Path, names: Path, f: Found)
    decreases |names|
  {
    && names != [] && dir in t.dirs
    && exists e {:trigger EntryLeads(t, dir, e, names, f)} :: e in t.dirs[dir] && EntryLeads(t, dir, e, names, f)
  }

  ghost predicate EntryLeads(t: Tree, dir: Path, e: Entry, names: Path, f: Found)
    requires names != []
    decreases |names|, 0
  {
    && e.name == names[0] && e.name !in t.hidden
    && if |names| == 1 then e.kind.File? && f == Found(dir, e)
       else match e.kind
            case SubDir => Resolves(t, dir + [e.name], names[1..], f)
            case LinkTo(target) => Resolves(t, target, names[1..], f)
            case _ => false
  }

  function Relative(p: Path, f: Found): Path
    requires p <= f.dir
  {
    f.dir[|p|..] + [f.entry.name]
  }

  lemma EntryResolves(t: Tree, dir: Path, e: Entry, names: Path, f: Found)
    requires dir in t.dirs && e in t.dirs[dir] && names != [] && EntryLeads(t, dir, e, names, f)
    ensures Resolves(t, dir, names, f)
  {
  }

  /** What a listed link leads to is reached over the directories the listing went through. */
  lemma {:induction false} ListedLinkResolves(t: Tree, p: Path, link: Found, rest: Path, f: Found)
    requires t.Valid() && p in t.dirs && link in Listing(t, p) && p <= link.dir
    requires link.entry.kind.LinkTo? && Resolves(t, link.entry.kind.target, rest, f)
    ensures Resolves(t, p, Relative(p, link) + rest, f)
    decreases Below(t, p)
  {
    InListFrom(t, p, 0, link);
    var j :| 0 <= j < |t.dirs[p]| && link in ListEntry(t, p, j);
    var e, names := t.EntryAt(p, j), Relative(p, link) + rest;
    if e.kind.SubDir? {
      var child := p + [e.name];
      ChildIsBelow(t, p, e.name);
      ListedIsBelow(t, child, link);
      ListedLinkResolves(t, child, link, rest, f);
      RelativeStep(p, e.name, link);
      assert names[1..] == Relative(child, link) + rest;
    } else {
      assert names == [e.name] + rest && names[1..] == rest;
    }
    EntryResolves(t, p, e, names, f);
  }

  lemma RelativeStep(p: Path, name: Name, f: Found)
    requires p + [name] <= f.dir
    ensures p <= f.dir && Relative(p, f) == [name] + Relative(p + [name], f)
  {
    assert f.dir[|p|] == (p + [name])[|p|];
    assert f.dir[|p|..] == [name] + f.dir[|p| + 1..];
  }

  lemma {:induction false} ListedFileResolves(t: Tree, p: Path, f: Found)
    requires t.Valid() && p in t.dirs && f in Listing(t, p) && p <= f.dir && f.entry.kind.File?
    ensures Resolves(t, p, Relative(p, f), f)
    decreases Below(t, p)
  {
    InListFrom(t, p, 0, f);
    var j :| 0 <= j < |t.dirs[p]| && f in ListEntry(t, p, j);
    var e := t.EntryAt(p, j);
    if e.kind.SubDir? {
      var child := p + [e.name];
      ChildIsBelow(t, p, e.name);
      ListedIsBelow(t, child, f);
      ListedFileResolves(t, child, f);
      RelativeStep(p, e.name, f);
      assert Relative(p, f)[1..] == Relative(child, f);
    }
    EntryResolves(t, p, e, Relative(p, f), f);
  }

  /** The file is shown under names that lead to it from the root of the walk. */
  ghost predicate IsShownBy(t: Tree, frame: Frame, names: Path, h: Hit)
    requires frame.walked != []
  {
    h.shown == frame.prefix + names && Resolves(t, Top(frame.walked), names, h.found)
  }

  lemma FirstIsShown(t: Tree, frame: Frame, h: Hit)
    requires frame.Ready(t) && Top(frame.walked) in t.dirs && h in FirstHits(t, frame)
    ensures var f := frame.remaining[0];
      Top(frame.walked) <= f.dir && IsShownBy(t, frame, Relative(Top(frame.walked), f), h)
  {
    var f, p := frame.remaining[0], Top(frame.walked);
    ListedIsBelow(t, p, f);
    ListedFileResolves(t, p, f);
    assert frame.Shown(f) == frame.prefix + Relative(p, f);
  }

  lemma OpenedIsShown(t: Tree, frame: Frame, inner: Frame, rest: Path, h: Hit)
    requires frame.Ready(t) && Top(frame.walked) in t.dirs && Opened(t, frame) == Some(inner)
    requires inner.walked != [] && IsShownBy(t, inner, rest, h)
    ensures var f := frame.remaining[0];
      Top(frame.walked) <= f.dir && IsShownBy(t, frame, Relative(Top(frame.walked), f) + rest, h)
  {
    var f, p := frame.remaining[0], Top(frame.walked);
    ListedIsBelow(t, p, f);
    assert Top(inner.walked) == f.entry.kind.target && inner.prefix == frame.Shown(f);
    ListedLinkResolves(t, p, f, rest, h.found);
    assert frame.Shown(f) + rest == frame.prefix + (Relative(p, f) + rest);
  }

  /** The path that a file of the walk is shown under. */
  lemma {:induction false} HitResolves(t: Tree, frame: Frame, h: Hit) returns (names: Path)
    requires frame.Valid(t) && Top(frame.walked) in t.dirs && h in WalkAll(t, frame)
    ensures IsShownBy(t, frame, names, h)
    decreases Unwalked(t, frame.walked), |frame.remaining|
  {
    OpenedIsDeeper(t, frame);
    if h in FirstHits(t, frame) {
      FirstIsShown(t, frame, h);
      names := Relative(Top(frame.walked), frame.remaining[0]);
    } else if Opened(t, frame).Some? && h in WalkAll(t, Opened(t, frame).value) {
      var inner := Opened(t, frame).value;
      OpenedRootIsDir(t, frame, inner);
      var rest := HitResolves(t, inner, h);
      OpenedIsShown(t, frame, inner, rest, h);
      names := Relative(Top(frame.walked), frame.remaining[0]) + rest;
    } else {
      names := HitResolves(t, frame.Rest(), h);
    }
  }

  lemma OpenedRootIsDir(t: Tree, frame: Frame, inner: Frame)
    requires frame.Ready(t) && Top(frame.walked) in t.dirs && Opened(t, frame) == Some(inner)
    ensures inner.walked != [] && Top(inner.walked) in t.dirs
  {
    ListedIsBelow(t, Top(frame.walked), frame.remaining[0]);
  }

  // ---- What the walk misses: nothing ------------------------------------------------------

  /** The walk from `p` lists whatever a walk from `dir` lists. */
  ghost predicate GoesThrough(t: Tree, p: Path, dir: Path) {
    && t.Valid() && p in t.dirs && dir in t.dirs
    && forall g :: g in Listing(t, dir) ==> g in Listing(t, p)
  }

  lemma EntryIsListed(t: Tree, dir: Path, e: Entry)
    requires t.Valid() && dir in t.dirs && e in t.dirs[dir] && e.name !in t.hidden
    ensures !e.kind.SubDir? ==> Found(dir, e) in Listing(t, dir)
    ensures e.kind.SubDir? ==> GoesThrough(t, dir, dir + [e.name])
    ensures e.kind.LinkTo? ==> e.kind.target in t.dirs
  {
    var j :| 0 <= j < |t.dirs[dir]| && t.dirs[dir][j] == e;
    assert t.EntryAt(dir, j) == e;
    if e.kind.SubDir? {
      forall g | g in Listing(t, dir + [e.name]) ensures g in Listing(t, dir) {
        assert g in ListEntry(t, dir, j);
        InListFrom(t, dir, 0, g);
      }
    } else {
      assert Found(dir, e) in ListEntry(t, dir, j);
      InListFrom(t, dir, 0, Found(dir, e));
    }
  }

  lemma {:induction false} ResolvedIsReachable(t: Tree, root: Path, chain: seq<Link>, dir: Path, names: Path, f: Found)
    requires IsChain(t, root, chain) && GoesThrough(t, ChainRoot(root, chain, |chain|), dir)
    requires Resolves(t, dir, names, f)
    ensures IsReachable(t, root, f)
    decreases |names|
  {
    var e :| e in t.dirs[dir] && EntryLeads(t, dir, e, names, f);
    EntryIsListed(t, dir, e);
    if |names| == 1 {
      assert LeadsTo(t, root, chain, f);
    } else if e.kind.SubDir? {
      ResolvedIsReachable(t, root, chain, dir + [e.name], names[1..], f);
    } else {
      var link := Link(dir, e.name, e.kind.target);
      assert link.AsFound() == Found(dir, e);
      LinkExtendsChain(t, root, chain, link);
      ResolvedIsReachable(t, root, chain + [link], e.kind.target, names[1..], f);
    }
  }

  lemma {:induction false} ResolvedIsFile(t: Tree, dir: Path, names: Path, f: Found)
    requires Resolves(t, dir, names, f)
    ensures f.entry.kind.File?
    decreases |names|
  {
    var e :| e in t.dirs[dir] && EntryLeads(t, dir, e, names, f);
    if |names| > 1 {
      ResolvedIsFile(t, if e.kind.SubDir? then dir + [e.name] else e.kind.target, names[1..], f);
    }
  }

  /** The walk finds a file if and only if some path leads to it over directories and links that are not hidden,
      and it shows each file it finds under such a path. */
  lemma WalkShowsFiles(t: Tree, root: Path, f: Found)
    requires t.Valid() && root in t.dirs
    ensures Start(t, root).Valid(t)
    ensures IsHit(WalkAll(t, Start(t, root)), f) <==> exists names :: Resolves(t, root, names, f)
    ensures forall h | h in WalkAll(t, Start(t, root)) ::
      root <= h.shown && Resolves(t, root, h.shown[|root|..], h.found)
  {
    StartIsValid(t, root);
    forall h | h in WalkAll(t, Start(t, root))
      ensures root <= h.shown && Resolves(t, root, h.shown[|root|..], h.found)
    {
      var names := HitResolves(t, Start(t, root), h);
      assert h.shown[|root|..] == names;
    }
    FoundIffReachable(t, root, f);
    if IsHit(WalkAll(t, Start(t, root)), f) {
      var h :| h in WalkAll(t, Start(t, root)) && h.found == f;
      assert Resolves(t, root, h.shown[|root|..], f);
    }
    if names :| Resolves(t, root, names, f) {
      ResolvedIsFile(t, root, names, f);
      ResolvedIsReachable(t, root, [], root, names, f);
    }
  }

  // ---- The order of the files -------------------------------------------------------------

  /** At the first segment where the paths differ, `p` has the smaller name. */
  predicate DifferAt(p: Path, q: Path, k: nat) {
    k < |p| && k < |q| && p[..k] == q[..k] && p[k] < q[k]
  }

  ghost predicate Precedes(p: Path, q: Path) {
    exists k: nat :: DifferAt(p, q, k)
  }

  lemma PrecedesWithin(prefix: Path, p: Path, q: Path, x: Path, y: Path)
    requires Precedes(p, q)
    ensures Precedes(prefix + p + x, prefix + q + y)
  {
    var k: nat :| DifferAt(p, q, k);
    var a, b := prefix + p + x, prefix + q + y;
    assert a[..|prefix| + k] == prefix + p[..k] && b[..|prefix| + k] == prefix + q[..k];
    assert DifferAt(a, b, |prefix| + k);
  }

  /** The entries of every directory are walked by ascending name. */
  ghost predicate IsSorted(t: Tree) {
    forall p, i, j | p in t.dirs && 0 <= i < j < |t.dirs[p]| :: t.dirs[p][i].name < t.dirs[p][j].name
  }

  ghost predicate Ascends(p: Path, listing: seq<Found>) {
    && (forall f | f in listing :: p <= f.dir)
    && forall i, j | 0 <= i < j < |listing| :: Precedes(Relative(p, listing[i]), Relative(p, listing[j]))
  }

  /** The entries from `i` on come below names from the `i`-th on. */
  ghost predicate ComesFrom(t: Tree, p: Path, i: nat, f: Found)
    requires p in t.dirs
  {
    p <= f.dir && exists j {:trigger t.dirs[p][j]} :: i <= j < |t.dirs[p]| && Relative(p, f)[0] == t.dirs[p][j].name
  }

  lemma EntryAscends(t: Tree, p: Path, i: nat)
    requires t.Valid() && p in t.dirs && i < |t.dirs[p]|
    requires t.EntryAt(p, i).kind.SubDir? && t.EntryAt(p, i).name !in t.hidden ==>
      Ascends(p + [t.EntryAt(p, i).name], Listing(t, p + [t.EntryAt(p, i).name]))
    ensures Ascends(p, ListEntry(t, p, i))
    ensures forall f | f in ListEntry(t, p, i) :: p <= f.dir && Relative(p, f)[0] == t.dirs[p][i].name
  {
    var e, listing := t.EntryAt(p, i), ListEntry(t, p, i);
    if e.kind.SubDir? && e.name !in t.hidden {
      var child := p + [e.name];
      forall f | f in listing ensures p <= f.dir && Relative(p, f) == [e.name] + Relative(child, f) {
        RelativeStep(p, e.name, f);
      }
      forall a, b | 0 <= a < b < |listing| ensures Precedes(Relative(p, listing[a]), Relative(p, listing[b])) {
        PrecedesWithin([e.name], Relative(child, listing[a]), Relative(child, listing[b]), [], []);
        assert listing[a] in listing && listing[b] in listing;
        assert forall x: Path :: x + [] == x;
      }
    }
  }

  lemma JoinAscends(t: Tree, p: Path, i: nat, n: nat, first: seq<Found>, rest: seq<Found>)
    requires t.Valid() && IsSorted(t) && p in t.dirs && i < |t.dirs[p]| && n == i + 1
    requires Ascends(p, first) && Ascends(p, rest)
    requires forall f | f in first :: p <= f.dir && Relative(p, f)[0] == t.dirs[p][i].name
    requires forall f | f in rest :: ComesFrom(t, p, n, f)
    ensures Ascends(p, first + rest)
  {
    var all := first + rest;
    forall a, b | 0 <= a < b < |all| ensures Precedes(Relative(p, all[a]), Relative(p, all[b])) {
      if b < |first| {
        assert all[a] == first[a] && all[b] == first[b];
      } else if a >= |first| {
        assert all[a] == rest[a - |first|] && all[b] == rest[b - |first|];
      } else {
        assert all[a] in first && all[b] in rest && ComesFrom(t, p, n, all[b]);
        assert DifferAt(Relative(p, all[a]), Relative(p, all[b]), 0);
      }
    }
  }

  lemma {:induction false} ListingAscends(t: Tree, p: Path, i: nat)
    requires t.Valid() && IsSorted(t) && p in t.dirs && i <= |t.dirs[p]|
    ensures Ascends(p, ListFrom(t, p, i)) && forall f | f in ListFrom(t, p, i) :: ComesFrom(t, p, i, f)
    decreases Below(t, p), |t.dirs[p]| - i
  {
    if i < |t.dirs[p]| {
      var e := t.EntryAt(p, i);
      ListingAscends(t, p, i + 1);
      if e.kind.SubDir? && e.name !in t.hidden {
        ChildIsBelow(t, p, e.name);
        ListingAscends(t, p + [e.name], 0);
      }
      EntryAscends(t, p, i);
      JoinAscends(t, p, i, i + 1, ListEntry(t, p, i), ListFrom(t, p, i + 1));
      forall f | f in ListFrom(t, p, i) ensures ComesFrom(t, p, i, f) {
        if f in ListEntry(t, p, i) {
          assert Relative(p, f)[0] == t.dirs[p][i].name;
        } else {
          assert ComesFrom(t, p, i + 1, f);
        }
      }
    }
  }

  /** Each file is shown at or below the path of an entry that remains. */
  ghost predicate IsUnder(frame: Frame, shown: Path, f: Found)
    requires frame.walked != []
  {
    f in frame.remaining && Top(frame.walked) <= f.dir && frame.Shown(f) <= shown
  }

  lemma {:induction false} HitIsUnder(t: Tree, frame: Frame, h: Hit) returns (f: Found)
    requires frame.Valid(t) && Top(frame.walked) in t.dirs && h in WalkAll(t, frame)
    ensures IsUnder(frame, h.shown, f)
    decreases |frame.remaining|
  {
    OpenedIsDeeper(t, frame);
    f := frame.remaining[0];
    ListedIsBelow(t, Top(frame.walked), f);
    if Opened(t, frame).Some? && h in WalkAll(t, Opened(t, frame).value) {
      var names := HitResolves(t, Opened(t, frame).value, h);
    } else if h !in FirstHits(t, frame) {
      f := HitIsUnder(t, frame.Rest(), h);
    }
  }

  ghost predicate ShownAscend(hits: seq<Hit>) {
    forall i, j | 0 <= i < j < |hits| :: Precedes(hits[i].shown, hits[j].shown)
  }

  /** What is shown under an earlier entry comes before what is shown under a later one. */
  lemma UnderPrecedes(p: Path, prefix: Path, f: Found, g: Found, x: Path, y: Path)
    requires p <= f.dir && p <= g.dir && Precedes(Relative(p, f), Relative(p, g))
    requires prefix + Relative(p, f) <= x && prefix + Relative(p, g) <= y
    ensures Precedes(x, y)
  {
    var a, b := prefix + Relative(p, f), prefix + Relative(p, g);
    PrecedesWithin(prefix, Relative(p, f), Relative(p, g), x[|a|..], y[|b|..]);
    assert x == a + x[|a|..] && y == b + y[|b|..];
  }

  lemma FirstIsUnder(t: Tree, frame: Frame, h: Hit)
    requires frame.Ready(t) && Top(frame.walked) in t.dirs
    requires Opened(t, frame).Some? ==> Opened(t, frame).value.Valid(t)
    requires h in FirstHits(t, frame) || (Opened(t, frame).Some? && h in WalkAll(t, Opened(t, frame).value))
    ensures IsUnder(frame, h.shown, frame.remaining[0])
  {
    ListedIsBelow(t, Top(frame.walked), frame.remaining[0]);
    if h !in FirstHits(t, frame) {
      OpenedIsDeeper(t, frame);
      var names := HitResolves(t, Opened(t, frame).value, h);
    }
  }

  lemma FirstBeforeRest(t: Tree, frame: Frame, h: Hit, later: Hit)
    requires frame.Ready(t) && frame.Rest().Valid(t) && Top(frame.walked) in t.dirs
    requires Ascends(Top(frame.walked), frame.remaining)
    requires IsUnder(frame, h.shown, frame.remaining[0]) && later in WalkAll(t, frame.Rest())
    ensures Precedes(h.shown, later.shown)
  {
    var p := Top(frame.walked);
    var g := HitIsUnder(t, frame.Rest(), later);
    var j :| 0 <= j < |frame.remaining[1..]| && frame.remaining[1..][j] == g;
    assert frame.remaining[j + 1] == g;
    assert frame.prefix + Relative(p, frame.remaining[0]) == frame.Shown(frame.remaining[0]);
    assert frame.prefix + Relative(p, g) == frame.Shown(g);
    UnderPrecedes(p, frame.prefix, frame.remaining[0], g, h.shown, later.shown);
  }

  lemma JoinShown(a: seq<Hit>, b: seq<Hit>)
    requires ShownAscend(a) && ShownAscend(b)
    requires forall x, y | x in a && y in b :: Precedes(x.shown, y.shown)
    ensures ShownAscend(a + b)
  {
    var all := a + b;
    forall i, j | 0 <= i < j < |all| ensures Precedes(all[i].shown, all[j].shown) {
      if i < |a| <= j {
        assert all[i] in a && all[j] in b;
      }
    }
  }

  lemma {:induction false} WalkAscends(t: Tree, frame: Frame)
    requires frame.Valid(t) && IsSorted(t) && Top(frame.walked) in t.dirs && Ascends(Top(frame.walked), frame.remaining)
    ensures ShownAscend(WalkAll(t, frame))
    decreases Unwalked(t, frame.walked), |frame.remaining|
  {
    if frame.remaining != [] {
      OpenedIsDeeper(t, frame);
      ListedIsBelow(t, Top(frame.walked), frame.remaining[0]);
      var inner := if Opened(t, frame).Some? then WalkAll(t, Opened(t, frame).value) else [];
      var first, rest := FirstHits(t, frame) + inner, WalkAll(t, frame.Rest());
      assert forall f | f in frame.remaining[1..] :: f in frame.remaining;
      WalkAscends(t, frame.Rest());
      if Opened(t, frame).Some? {
        ListingAscends(t, Top(Opened(t, frame).value.walked), 0);
        WalkAscends(t, Opened(t, frame).value);
      }
      assert ShownAscend(first) by {
        assert FirstHits(t, frame) == [] ==> first == inner;
        assert inner == [] ==> first == FirstHits(t, frame);
      }
      forall x, y | x in first && y in rest ensures Precedes(x.shown, y.shown) {
        FirstIsUnder(t, frame, x);
        FirstBeforeRest(t, frame, x, y);
      }
      JoinShown(first, rest);
    }
  }

  /** The files come in ascending order of the paths they are shown under, segment by segment: a linked directory
      stands where its link does, and no path is shown twice. */
  lemma FilesComeInOrder(t: Tree, root: Path)
    requires t.Valid() && IsSorted(t) && root in t.dirs
    ensures Start(t, root).Valid(t) && ShownAscend(WalkAll(t, Start(t, root)))
  {
    StartIsValid(t, root);
    ListingAscends(t, root, 0);
    WalkAscends(t, Start(t, root));
  }
}
