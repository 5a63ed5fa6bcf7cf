/** The store of emitted assets and prebuilt chunks: deduplication by content, the choice of a name,
    and the flush into a bundle. */
module FileEmitters {
  import opened Sorting
  import opened Strings
  import opened Wrappers

  /** A text by its bytes: a file name, a hash or a reference id. */
  datatype Text = Text(bytes: string)

  datatype Source = Source(bytes: string)

  const TAKEN := Source("")

  datatype Emission = Emission(name: Option<Text>, original: Option<Text>, fileName: Option<Text>, source: Source)

  datatype Asset = Asset(fileName: Text, source: Source, names: seq<Text>, originals: seq<Text>)

  datatype Chunk = Chunk(fileName: Text, code: Source)

  datatype Error = InvalidFileName(name: Text) | RenderFailed

  /** The hash of a source, the reference id of a seed, the test for path-like names, and lower case. */
  datatype Env = Env(hash: Source -> Text, idOf: Text -> Text, isPathFragment: Text -> bool, lower: Text -> Text)
  {
    /** No two sources share a hash and no two seeds a reference id. */
    ghost predicate NoCollisions() {
      && (forall x, y :: hash(x) == hash(y) ==> x == y)
      && (forall x, y :: idOf(x) == idOf(y) ==> x == y)
    }
  }

  datatype Store = Store(
    idOfHash: map<Text, Text>,
    files: map<Text, Asset>,
    prebuilt: map<Text, Chunk>,
    emitted: set<Text>,
    flushedHash: map<Text, Text>,
    takenNames: set<Text>,
    building: bool)

  const EMPTY := Store(map[], map[], map[], {}, map[], {}, false)

  /** Shorter names first, names of one length in byte order. */
  predicate ShorterOrSame(a: Text, b: Text) {
    |a.bytes| < |b.bytes| || (|a.bytes| == |b.bytes| && StringLe(a.bytes, b.bytes))
  }

  predicate NameOrder(a: Text, b: Text) {
    StringLe(a.bytes, b.bytes)
  }

  lemma NameOrders()
    ensures TotalPreorder(ShorterOrSame) && TotalPreorder(NameOrder)
  {
    forall x: Text, y: Text ensures NameOrder(x, y) || NameOrder(y, x) {
      StringLeTotal(x.bytes, y.bytes);
    }
    forall x: Text, y: Text, z: Text | NameOrder(x, y) && NameOrder(y, z) ensures NameOrder(x, z) {
      StringLeTransitive(x.bytes, y.bytes, z.bytes);
    }
    forall x: Text, y: Text, z: Text | ShorterOrSame(x, y) && ShorterOrSame(y, z) ensures ShorterOrSame(x, z) {
      if |x.bytes| == |y.bytes| == |z.bytes| {
        StringLeTransitive(x.bytes, y.bytes, z.bytes);
      }
    }
    forall x: Text, y: Text ensures ShorterOrSame(x, y) || ShorterOrSame(y, x) {
      StringLeTotal(x.bytes, y.bytes);
    }
  }

  function Listed(x: Option<Text>): seq<Text> {
    if x.Some? then [x.value] else []
  }

  function ValidatedName(e: Emission): Option<Text> {
    if e.fileName.Some? then e.fileName else e.name
  }

  /** The name is strictly before every name the asset already has. */
  predicate IsShorterThanAll(n: Text, names: seq<Text>) {
    forall x | x in names :: !ShorterOrSame(x, n)
  }

  // ---- One emission -----------------------------------------------------------------------

  /** A new entry under `id`. `rendered` is the deconflicted name the template gives, if it renders.
      A flushed entry with different content becomes dirty. */
  function Inserted(s: Store, id: Text, e: Emission, hash: Text, rendered: Option<Text>): Result<Store, Error> {
    var fileName := if e.fileName.Some? then e.fileName else rendered;
    if fileName.None? then Failure(RenderFailed)
    else
      Success(s.(files := s.files[id := Asset(fileName.value, e.source, Listed(e.name), Listed(e.original))],
                 emitted := if id in s.flushedHash && s.flushedHash[id] != hash then s.emitted - {id} else s.emitted))
  }

  predicate RepicksName(s: Store, id: Text, e: Emission) {
    id in s.files && s.building && id !in s.emitted && e.name.Some? && IsShorterThanAll(e.name.value, s.files[id].names)
  }

  /** A second emission of a known content: only its names are recorded. */
  function Deduplicated(s: Store, id: Text, e: Emission, rendered: Option<Text>): Result<Store, Error> {
    if id !in s.files then Success(s)
    else if RepicksName(s, id, e) && rendered.None? then Failure(RenderFailed)
    else
      var a := s.files[id];
      var fileName := if RepicksName(s, id, e) then rendered.value else a.fileName;
      Success(s.(files := s.files[id := Asset(fileName, a.source, a.names + Listed(e.name),
          a.originals + Listed(e.original))]))
  }

  function Emitted(env: Env, s: Store, e: Emission, rendered: Option<Text>): (r: (Store, Result<Text, Error>)) {
    var name := ValidatedName(e);
    if name.Some? && env.isPathFragment(name.value) then (s, Failure(InvalidFileName(name.value)))
    else
      var hash := env.hash(e.source);
      if e.fileName.None? && hash in s.idOfHash then
        var id := s.idOfHash[hash];
        match Deduplicated(s, id, e, rendered)
        case Failure(error) => (s, Failure(error))
        case Success(t) => (t, Success(id))
      else
        var id := env.idOf(if e.fileName.Some? then e.fileName.value else hash);
        match Inserted(s, id, e, hash, rendered)
        case Failure(error) => (s, Failure(error))
        case Success(t) => (if e.fileName.Some? then t else t.(idOfHash := t.idOfHash[hash := id]), Success(id))
  }

  function Prebuilt(env: Env, s: Store, chunk: Chunk): Store {
    s.(prebuilt := s.prebuilt[env.idOf(chunk.fileName) := chunk])
  }

  // ---- The flush --------------------------------------------------------------------------

  function DirtyFiles(s: Store): set<Text> {
    set id | id in s.files && id !in s.emitted
  }

  function DirtyChunks(s: Store): set<Text> {
    set id | id in s.prebuilt && id !in s.emitted && id !in s.files
  }

  /** What the bundle receives for an asset. */
  function OutputOf(a: Asset): Asset {
    a.(names := Sort(ShorterOrSame, a.names), originals := Sort(NameOrder, a.originals))
  }

  function Drained(a: Asset): Asset {
    Asset(a.fileName, TAKEN, [], [])
  }

  function FilesAfter(s: Store, ids: set<Text>): map<Text, Asset> {
    map id | id in s.files :: if id in ids then Drained(s.files[id]) else s.files[id]
  }

  function HashesAfter(env: Env, s: Store, ids: set<Text>): map<Text, Text> {
    map id | id in s.flushedHash.Keys + (s.files.Keys * ids) ::
      if id in s.files && id in ids then env.hash(s.files[id].source) else s.flushedHash[id]
  }

  function NamesAfter(env: Env, s: Store, ids: set<Text>): set<Text> {
    s.takenNames + (set id | id in s.files && id in ids && id !in s.flushedHash :: env.lower(s.files[id].fileName))
  }

  /** The asset part of a flush, applied to the entries in `ids`. */
  function FlushedFiles(env: Env, s: Store, ids: set<Text>): Store {
    s.(files := FilesAfter(s, ids), emitted := s.emitted + ids,
       flushedHash := HashesAfter(env, s, ids), takenNames := NamesAfter(env, s, ids))
  }

  function ChunkNamesAfter(env: Env, s: Store, ids: set<Text>): set<Text> {
    s.takenNames + (set id | id in s.prebuilt && id in ids :: env.lower(s.prebuilt[id].fileName))
  }

  function FlushedChunks(env: Env, s: Store, ids: set<Text>): Store {
    s.(emitted := s.emitted + ids, takenNames := ChunkNamesAfter(env, s, ids))
  }

  function Flushed(env: Env, s: Store): Store {
    FlushedChunks(env, FlushedFiles(env, s, DirtyFiles(s)), DirtyChunks(s))
  }

  /** `order` lists the elements of `ids`, each once. */
  ghost predicate Lists(order: seq<Text>, ids: set<Text>) {
    && (forall id :: id in order <==> id in ids)
    && (forall i, j | 0 <= i < j < |order| :: order[i] != order[j])
  }

  ghost function OutputsOf(s: Store, order: seq<Text>): seq<Asset>
    requires forall id | id in order :: id in s.files
  {
    seq(|order|, i requires 0 <= i < |order| => OutputOf(s.files[order[i]]))
  }

  ghost function ChunksOf(s: Store, order: seq<Text>): seq<Chunk>
    requires forall id | id in order :: id in s.prebuilt
  {
    seq(|order|, i requires 0 <= i < |order| => s.prebuilt[order[i]])
  }

  predicate ByFileName(a: Asset, b: Asset) {
    NameOrder(a.fileName, b.fileName)
  }

  /** The assets a flush appends: one for each dirty entry, ordered by file name. */
  ghost predicate AreFlushedAssets(s: Store, assets: seq<Asset>) {
    && SortedBy(ByFileName, assets)
    && exists order :: Lists(order, DirtyFiles(s)) && multiset(assets) == multiset(OutputsOf(s, order))
  }

  ghost predicate AreFlushedChunks(s: Store, chunks: seq<Chunk>) {
    exists order :: Lists(order, DirtyChunks(s)) && chunks == ChunksOf(s, order)
  }

  ghost function FirstFlushes(s: Store, ids: set<Text>): set<Text> {
    set id | id in ids && id !in s.flushedHash
  }

  lemma ByFileNameIsPreorder()
    ensures TotalPreorder(ByFileName)
  {
    NameOrders();
    forall x: Asset, y: Asset ensures ByFileName(x, y) || ByFileName(y, x) {
      assert NameOrder(x.fileName, y.fileName) || NameOrder(y.fileName, x.fileName);
    }
    forall x: Asset, y: Asset, z: Asset | ByFileName(x, y) && ByFileName(y, z) ensures ByFileName(x, z) {
      assert NameOrder(x.fileName, y.fileName) && NameOrder(y.fileName, z.fileName);
    }
  }

  /** The flush of a single asset. */
  function OneFlushed(env: Env, s: Store, id: Text): Store
    requires id in s.files
  {
    var a := s.files[id];
    s.(files := s.files[id := Drained(a)], emitted := s.emitted + {id},
        flushedHash := s.flushedHash[id := env.hash(a.source)],
       takenNames := if id in s.flushedHash then s.takenNames else s.takenNames + {env.lower(a.fileName)})
  }

  /** A first flush whose lower-case name was taken before. */
  predicate Conflicts(env: Env, s: Store, id: Text)
    requires id in s.files
  {
    id !in s.flushedHash && env.lower(s.files[id].fileName) in s.takenNames
  }

  // ---- The order of an output -------------------------------------------------------------

  /** Fewer bytes, or as many and before it in byte order. */
  ghost predicate IsShorter(a: Text, b: Text) {
    |a.bytes| < |b.bytes| || (|a.bytes| == |b.bytes| && ComesBefore(a.bytes, b.bytes))
  }

  lemma ShorterIff(a: Text, b: Text)
    ensures IsShorter(a, b) <==> !ShorterOrSame(b, a)
  {
    StringLeIff(a.bytes, b.bytes);
    StringLeIff(b.bytes, a.bytes);
    StringLeTotal(a.bytes, b.bytes);
    NotBeforeItself(a.bytes);
    if StringLe(a.bytes, b.bytes) && StringLe(b.bytes, a.bytes) {
      StringLeAntisymmetric(a.bytes, b.bytes);
    }
  }

  ghost predicate NoneShorterLater(names: seq<Text>) {
    forall i, j | 0 <= i < j < |names| :: !IsShorter(names[j], names[i])
  }

  ghost predicate ComesFirst(a: Text, b: Text) {
    a == b || ComesBefore(a.bytes, b.bytes)
  }

  ghost predicate InByteOrder(names: seq<Text>) {
    forall i, j | 0 <= i < j < |names| :: ComesFirst(names[i], names[j])
  }

  /** The output of a dirty entry: its file name and content, its names by length, its other names in byte
      order, none left out and none added. */
  ghost predicate IsOutputOf(output: Asset, held: Asset) {
    && output.fileName == held.fileName && output.source == held.source
    && multiset(output.names) == multiset(held.names) && NoneShorterLater(output.names)
    && multiset(output.originals) == multiset(held.originals) && InByteOrder(output.originals)
  }

  lemma OutputIsSorted(held: Asset)
    ensures IsOutputOf(OutputOf(held), held)
  {
    var output := OutputOf(held);
    NameOrders();
    SortIsSorted(ShorterOrSame, held.names);
    SortIsSorted(NameOrder, held.originals);
    forall i, j | 0 <= i < j < |output.names| ensures !IsShorter(output.names[j], output.names[i]) {
      ShorterIff(output.names[j], output.names[i]);
    }
    forall i, j | 0 <= i < j < |output.originals|
      ensures ComesFirst(output.originals[i], output.originals[j])
    {
      assert NameOrder(output.originals[i], output.originals[j]);
      StringLeIff(output.originals[i].bytes, output.originals[j].bytes);
    }
  }

  ghost predicate FileNamesAscend(assets: seq<Asset>) {
    forall i, j | 0 <= i < j < |assets| :: ComesFirst(assets[i].fileName, assets[j].fileName)
  }

  ghost predicate IsOutputOfDirty(s: Store, a: Asset) {
    exists id :: id in s.files && id !in s.emitted && IsOutputOf(a, s.files[id])
  }

  lemma SortedAscends(assets: seq<Asset>)
    requires SortedBy(ByFileName, assets)
    ensures FileNamesAscend(assets)
  {
    forall i, j | 0 <= i < j < |assets| ensures ComesFirst(assets[i].fileName, assets[j].fileName) {
      assert ByFileName(assets[i], assets[j]);
      StringLeIff(assets[i].fileName.bytes, assets[j].fileName.bytes);
    }
  }

  lemma OutputIsOfDirty(s: Store, order: seq<Text>, a: Asset)
    requires Lists(order, DirtyFiles(s)) && a in OutputsOf(s, order)
    ensures IsOutputOfDirty(s, a)
  {
    var i :| 0 <= i < |order| && OutputsOf(s, order)[i] == a;
    assert order[i] in order;
    OutputIsSorted(s.files[order[i]]);
  }

  lemma DirtyHasOutput(s: Store, order: seq<Text>, id: Text)
    requires Lists(order, DirtyFiles(s)) && id in s.files && id !in s.emitted
    ensures OutputOf(s.files[id]) in OutputsOf(s, order)
  {
    assert id in DirtyFiles(s);
    var i :| 0 <= i < |order| && order[i] == id;
    assert OutputsOf(s, order)[i] == OutputOf(s.files[id]);
  }

  /** The assets of a flush are in the byte order of their file names, and each is the output of a dirty entry;
      every dirty entry has one. */
  lemma FlushedAssetsAreOrdered(s: Store, assets: seq<Asset>)
    requires AreFlushedAssets(s, assets)
    ensures FileNamesAscend(assets) && forall a | a in assets :: IsOutputOfDirty(s, a)
    ensures forall id | id in s.files && id !in s.emitted :: exists a :: a in assets && IsOutputOf(a, s.files[id])
  {
    SortedAscends(assets);
    var order :| Lists(order, DirtyFiles(s)) && multiset(assets) == multiset(OutputsOf(s, order));
    SameElements(assets, OutputsOf(s, order));
    forall a | a in assets ensures IsOutputOfDirty(s, a) {
      OutputIsOfDirty(s, order, a);
    }
    forall id | id in s.files && id !in s.emitted ensures exists a :: a in assets && IsOutputOf(a, s.files[id]) {
      DirtyHasOutput(s, order, id);
      OutputIsSorted(s.files[id]);
    }
  }

  // ---- What a flush leaves ----------------------------------------------------------------

  /** A first flush under a name with this lower-case form. */
  ghost predicate TakesName(env: Env, s: Store, id: Text, lower: Text) {
    id !in s.emitted &&
    if id in s.files then id !in s.flushedHash && lower == env.lower(s.files[id].fileName)
    else id in s.prebuilt && lower == env.lower(s.prebuilt[id].fileName)
  }

  ghost predicate IsEmptied(env: Env, s: Store, t: Store, id: Text)
    requires id in s.files
  {
    && id in t.files && t.files[id] == Asset(s.files[id].fileName, Source(""), [], [])
    && id in t.flushedHash && t.flushedHash[id] == env.hash(s.files[id].source)
  }

  /** A flush empties each dirty entry, records the hash of what it had, and marks all entries and chunks; every
      first flush takes the lower-case form of a name, and no other name is taken. */
  lemma FlushLeaves(env: Env, s: Store)
    ensures var t := Flushed(env, s);
      && t.files.Keys == s.files.Keys && t.prebuilt == s.prebuilt && t.idOfHash == s.idOfHash
      && (forall id | id in s.files && id !in s.emitted :: IsEmptied(env, s, t, id))
      && (forall id | id in s.files && id in s.emitted :: t.files[id] == s.files[id])
      && (forall id :: id in t.emitted <==> id in s.emitted || id in s.files || id in s.prebuilt)
      && (forall lower :: lower in t.takenNames <==>
            lower in s.takenNames || exists id {:trigger TakesName(env, s, id, lower)} :: TakesName(env, s, id, lower))
  {
    var f, t := FlushedFiles(env, s, DirtyFiles(s)), Flushed(env, s);
    forall lower
      ensures lower in t.takenNames <==>
              lower in s.takenNames || exists id {:trigger TakesName(env, s, id, lower)} :: TakesName(env, s, id, lower)
    {
      if id :| TakesName(env, s, id, lower) {
        assert id in s.files ==> id in DirtyFiles(s);
        assert id !in s.files ==> id in DirtyChunks(s);
      }
      if id :| id in DirtyFiles(s) && id !in s.flushedHash && lower == env.lower(s.files[id].fileName) {
        assert TakesName(env, s, id, lower);
      }
      if id :| id in DirtyChunks(s) && lower == env.lower(s.prebuilt[id].fileName) {
        assert TakesName(env, s, id, lower);
      }
    }
  }

  lemma FilesOneMore(s: Store, done: set<Text>, id: Text)
    requires id in s.files && id !in done
    ensures id in FilesAfter(s, done) && FilesAfter(s, done)[id] == s.files[id]
    ensures FilesAfter(s, done + {id}) == FilesAfter(s, done)[id := Drained(s.files[id])]
  {
  }

  lemma HashesOneMore(env: Env, s: Store, done: set<Text>, id: Text)
    requires id in s.files && id !in done
    ensures id in HashesAfter(env, s, done) <==> id in s.flushedHash
    ensures HashesAfter(env, s, done + {id}) == HashesAfter(env, s, done)[id := env.hash(s.files[id].source)]
  {
  }

  lemma NamesOneMore(env: Env, s: Store, done: set<Text>, id: Text)
    requires id in s.files && id !in done
    ensures NamesAfter(env, s, done + {id}) ==
      if id in s.flushedHash then NamesAfter(env, s, done)
          else NamesAfter(env, s, done) + {env.lower(s.files[id].fileName)}
  {
  }

  lemma FlushOneMore(env: Env, s: Store, done: set<Text>, id: Text)
    requires id in s.files && id !in done
    ensures var t := FlushedFiles(env, s, done);
      && id in t.files && t.files[id] == s.files[id] && (id in t.flushedHash <==> id in s.flushedHash)
      && FlushedFiles(env, s, done + {id}) == OneFlushed(env, t, id)
  {
    FilesOneMore(s, done, id);
    HashesOneMore(env, s, done, id);
    NamesOneMore(env, s, done, id);
    assert s.emitted + (done + {id}) == (s.emitted + done) + {id};
  }

  lemma FlushNone(env: Env, s: Store)
    ensures FlushedFiles(env, s, {}) == s
  {
    assert FilesAfter(s, {}) == s.files;
    assert HashesAfter(env, s, {}) == s.flushedHash;
    assert NamesAfter(env, s, {}) == s.takenNames;
  }

  lemma ListOneMore(order: seq<Text>, ids: set<Text>, id: Text)
    requires Lists(order, ids) && id !in ids
    ensures Lists(order + [id], ids + {id})
  {
  }

  /** Every first flush either takes a name or is reported. */
  ghost predicate NamesAdd(s: Store, t: Store, done: set<Text>, warnings: seq<Text>) {
    |warnings| + |t.takenNames| == |s.takenNames| + |FirstFlushes(s, done)|
  }

  lemma FirstFlushesOneMore(s: Store, done: set<Text>, id: Text)
    requires id !in done
    ensures |FirstFlushes(s, done + {id})| == |FirstFlushes(s, done)| + if id in s.flushedHash then 0 else 1
  {
    if id in s.flushedHash {
      assert FirstFlushes(s, done + {id}) == FirstFlushes(s, done);
    } else {
      assert FirstFlushes(s, done + {id}) == FirstFlushes(s, done) + {id};
    }
  }

  lemma TakenOneMore(taken: set<Text>, lower: Text)
    ensures |taken + {lower}| == |taken| + if lower in taken then 0 else 1
  {
    if lower in taken {
      assert taken + {lower} == taken;
    }
  }

  lemma NamesAddOneMore(env: Env, s: Store, t: Store, done: set<Text>, warnings: seq<Text>, id: Text)
    requires NamesAdd(s, t, done, warnings) && id in t.files && id !in done
    requires id in t.flushedHash <==> id in s.flushedHash
    ensures NamesAdd(s, OneFlushed(env, t, id), done + {id},
                     if Conflicts(env, t, id) then warnings + [t.files[id].fileName] else warnings)
  {
    FirstFlushesOneMore(s, done, id);
    TakenOneMore(t.takenNames, env.lower(t.files[id].fileName));
  }

  /** The dirty entries that are no longer pending were flushed in this order. */
  ghost predicate Visited(s: Store, pending: set<Text>, order: seq<Text>) {
    pending <= s.files.Keys && Lists(order, DirtyFiles(s) - pending)
  }

  lemma VisitedStep(s: Store, pending: set<Text>, order: seq<Text>, id: Text)
    requires Visited(s, pending, order) && id in pending
    ensures var done := DirtyFiles(s) - pending;
      if id in s.emitted then
        DirtyFiles(s) - (pending - {id}) == done && Visited(s, pending - {id}, order)
      else
        DirtyFiles(s) - (pending - {id}) == done + {id} && Visited(s, pending - {id}, order + [id])
  {
    var done := DirtyFiles(s) - pending;
    if id in s.emitted {
      assert DirtyFiles(s) - (pending - {id}) == done;
    } else {
      assert DirtyFiles(s) - (pending - {id}) == done + {id};
      ListOneMore(order, done, id);
    }
  }

  /** Where the flush of the assets stands: the store, the outputs and the warnings so far. */
  ghost predicate Flushing(env: Env, s: Store, t: Store, pending: set<Text>, order: seq<Text>, assets: seq<Asset>,
      warnings: seq<Text>)
  {
    && Visited(s, pending, order)
    && t == FlushedFiles(env, s, DirtyFiles(s) - pending) && assets == OutputsOf(s, order)
    && NamesAdd(s, t, DirtyFiles(s) - pending, warnings)
  }

  lemma FlushingSkips(env: Env, s: Store, t: Store, pending: set<Text>, order: seq<Text>, assets: seq<Asset>,
      warnings: seq<Text>, id: Text)
    requires Flushing(env, s, t, pending, order, assets, warnings) && id in pending
    ensures id in t.files && (id in t.emitted <==> id in s.emitted)
    ensures id in t.emitted ==> Flushing(env, s, t, pending - {id}, order, assets, warnings)
  {
    VisitedStep(s, pending, order, id);
  }

  lemma OutputsOneMore(s: Store, order: seq<Text>, id: Text)
    requires (forall x | x in order :: x in s.files) && id in s.files
    ensures forall x | x in order + [id] :: x in s.files
    ensures OutputsOf(s, order + [id]) == OutputsOf(s, order) + [OutputOf(s.files[id])]
  {
  }

  lemma FlushingAdds(env: Env, s: Store, t: Store, pending: set<Text>, order: seq<Text>, assets: seq<Asset>,
      warnings: seq<Text>, id: Text)
    requires Flushing(env, s, t, pending, order, assets, warnings) && id in pending && id !in s.emitted && id in t.files
    ensures Flushing(env, s, OneFlushed(env, t, id), pending - {id}, order + [id], assets + [OutputOf(t.files[id])],
                     if Conflicts(env, t, id) then warnings + [t.files[id].fileName] else warnings)
  {
    var done := DirtyFiles(s) - pending;
    VisitedStep(s, pending, order, id);
    FlushOneMore(env, s, done, id);
    OutputsOneMore(s, order, id);
    assert NamesAdd(s, OneFlushed(env, t, id), done + {id},
                    if Conflicts(env, t, id) then warnings + [t.files[id].fileName] else warnings) by {
      NamesAddOneMore(env, s, t, done, warnings, id);
    }
  }

  lemma FlushingStarts(env: Env, s: Store)
    ensures Flushing(env, s, s, s.files.Keys, [], [], [])
  {
    FlushNone(env, s);
    assert FirstFlushes(s, {}) == {} && DirtyFiles(s) - s.files.Keys == {};
    assert OutputsOf(s, []) == [];
  }

  lemma FlushingEnds(env: Env, s: Store, t: Store, order: seq<Text>, assets: seq<Asset>, warnings: seq<Text>)
    requires Flushing(env, s, t, {}, order, assets, warnings)
    ensures t == FlushedFiles(env, s, DirtyFiles(s)) && NamesAdd(s, t, DirtyFiles(s), warnings)
    ensures AreFlushedAssets(s, Sort(ByFileName, assets))
  {
    assert DirtyFiles(s) - {} == DirtyFiles(s);
    ByFileNameIsPreorder();
    SortIsSorted(ByFileName, assets);
    assert Lists(order, DirtyFiles(s)) && multiset(Sort(ByFileName, assets)) == multiset(OutputsOf(s, order));
  }

  // ---- Chunks that were built beforehand --------------------------------------------------

  /** Where the flush of the prebuilt chunks stands. */
  ghost predicate FlushingChunks(env: Env, s: Store, t: Store, pending: set<Text>, order: seq<Text>, chunks: seq<Chunk>,
      warnings: seq<Text>)
  {
    && pending <= s.prebuilt.Keys && Lists(order, UnflushedChunks(s) - pending)
    && t == FlushedChunks(env, s, UnflushedChunks(s) - pending) && chunks == ChunksOf(s, order)
    && ChunkNamesAdd(s, t, UnflushedChunks(s) - pending, warnings)
  }

  ghost predicate ChunkNamesAdd(s: Store, t: Store, done: set<Text>, warnings: seq<Text>) {
    |warnings| + |t.takenNames| == |s.takenNames| + |done|
  }

  function UnflushedChunks(s: Store): set<Text> {
    set id | id in s.prebuilt && id !in s.emitted
  }

  function OneChunkFlushed(env: Env, s: Store, id: Text): Store
    requires id in s.prebuilt
  {
    s.(emitted := s.emitted + {id}, takenNames := s.takenNames + {env.lower(s.prebuilt[id].fileName)})
  }

  lemma ChunkNamesOneMore(env: Env, s: Store, done: set<Text>, id: Text)
    requires id in s.prebuilt
    ensures ChunkNamesAfter(env, s, done + {id}) == ChunkNamesAfter(env, s, done) + {env.lower(s.prebuilt[id].fileName)}
  {
  }

  lemma FlushOneMoreChunk(env: Env, s: Store, done: set<Text>, id: Text)
    requires id in s.prebuilt
    ensures FlushedChunks(env, s, done + {id}) == OneChunkFlushed(env, FlushedChunks(env, s, done), id)
  {
    ChunkNamesOneMore(env, s, done, id);
    assert s.emitted + (done + {id}) == (s.emitted + done) + {id};
  }

  predicate ChunkConflicts(env: Env, s: Store, id: Text)
    requires id in s.prebuilt
  {
    env.lower(s.prebuilt[id].fileName) in s.takenNames
  }

  lemma ChunkNamesAddOneMore(env: Env, s: Store, t: Store, done: set<Text>, warnings: seq<Text>, id: Text)
    requires ChunkNamesAdd(s, t, done, warnings) && id in t.prebuilt && id !in done
    ensures ChunkNamesAdd(s, OneChunkFlushed(env, t, id), done + {id},
                          if ChunkConflicts(env, t, id) then warnings + [t.prebuilt[id].fileName] else warnings)
  {
    var lower := env.lower(t.prebuilt[id].fileName);
    assert lower in t.takenNames ==> t.takenNames + {lower} == t.takenNames;
  }

  lemma ChunksOneMore(s: Store, order: seq<Text>, id: Text)
    requires (forall x | x in order :: x in s.prebuilt) && id in s.prebuilt
    ensures forall x | x in order + [id] :: x in s.prebuilt
    ensures ChunksOf(s, order + [id]) == ChunksOf(s, order) + [s.prebuilt[id]]
  {
  }

  lemma UnflushedStep(s: Store, pending: set<Text>, order: seq<Text>, id: Text)
    requires Lists(order, UnflushedChunks(s) - pending) && pending <= s.prebuilt.Keys && id in pending
    ensures var done := UnflushedChunks(s) - pending;
      if id in s.emitted then
        UnflushedChunks(s) - (pending - {id}) == done
      else
        UnflushedChunks(s) - (pending - {id}) == done + {id} && Lists(order + [id], done + {id})
  {
    var done := UnflushedChunks(s) - pending;
    if id in s.emitted {
      assert UnflushedChunks(s) - (pending - {id}) == done;
    } else {
      assert UnflushedChunks(s) - (pending - {id}) == done + {id};
      ListOneMore(order, done, id);
    }
  }

  lemma FlushingChunksSkips(env: Env, s: Store, t: Store, pending: set<Text>, order: seq<Text>, chunks: seq<Chunk>,
      warnings: seq<Text>, id: Text)
    requires FlushingChunks(env, s, t, pending, order, chunks, warnings) && id in pending
    ensures t.prebuilt == s.prebuilt && (id in t.emitted <==> id in s.emitted)
    ensures id in t.emitted ==> FlushingChunks(env, s, t, pending - {id}, order, chunks, warnings)
  {
    UnflushedStep(s, pending, order, id);
  }

  lemma FlushingChunksAdds(env: Env, s: Store, t: Store, pending: set<Text>, order: seq<Text>, chunks: seq<Chunk>,
      warnings: seq<Text>, id: Text)
    requires FlushingChunks(env, s, t, pending, order, chunks, warnings) && id in pending && id !in s.emitted
        && t.prebuilt == s.prebuilt
    ensures FlushingChunks(env, s, OneChunkFlushed(env, t, id), pending - {id}, order + [id], chunks + [t.prebuilt[id]],
                           if ChunkConflicts(env, t, id) then warnings + [t.prebuilt[id].fileName] else warnings)
  {
    var done := UnflushedChunks(s) - pending;
    UnflushedStep(s, pending, order, id);
    FlushOneMoreChunk(env, s, done, id);
    ChunksOneMore(s, order, id);
    ChunkNamesAddOneMore(env, s, t, done, warnings, id);
  }

  lemma FlushingChunksStarts(env: Env, s: Store)
    ensures FlushingChunks(env, s, s, s.prebuilt.Keys, [], [], [])
  {
    assert UnflushedChunks(s) - s.prebuilt.Keys == {};
    assert ChunkNamesAfter(env, s, {}) == s.takenNames;
    assert ChunksOf(s, []) == [];
  }

  ghost predicate AreUnflushedChunks(s: Store, chunks: seq<Chunk>) {
    exists order :: Lists(order, UnflushedChunks(s)) && chunks == ChunksOf(s, order)
  }

  lemma FlushingChunksEnds(env: Env, s: Store, t: Store, order: seq<Text>, chunks: seq<Chunk>, warnings: seq<Text>)
    requires FlushingChunks(env, s, t, {}, order, chunks, warnings)
    ensures t == FlushedChunks(env, s, UnflushedChunks(s)) && AreUnflushedChunks(s, chunks)
    ensures ChunkNamesAdd(s, t, UnflushedChunks(s), warnings)
  {
    assert UnflushedChunks(s) - {} == UnflushedChunks(s);
  }

  /** After the assets, the chunks that are left are those whose id no asset shares. */
  lemma AssetsGoFirst(env: Env, s: Store)
    ensures UnflushedChunks(FlushedFiles(env, s, DirtyFiles(s))) == DirtyChunks(s)
  {
  }

  // ---- The emitter ------------------------------------------------------------------------

  class FileEmitter {
    const env: Env
    var idOfHash: map<Text, Text>
    var files: map<Text, Asset>
    var prebuilt: map<Text, Chunk>
    var emitted: set<Text>
    var flushedHash: map<Text, Text>
    var takenNames: set<Text>
    var building: bool

    ghost function View(): Store
      reads this
    {
      Store(idOfHash, files, prebuilt, emitted, flushedHash, takenNames, building)
    }

    constructor (env: Env)
      ensures View() == EMPTY && this.env == env
    {
      this.env := env;
      idOfHash, files, prebuilt, flushedHash := map[], map[], map[], map[];
      emitted, takenNames, building := {}, {}, false;
    }

    method Clear()
      modifies this
      ensures View() == EMPTY
    {
      idOfHash, files, prebuilt, flushedHash := map[], map[], map[], map[];
      emitted, takenNames, building := {}, {}, false;
    }

    method EnterBuildPhase()
      modifies `building
      ensures building
    {
      building := true;
    }

    method EnterOutputPhase()
      modifies `building
      ensures !building
    {
      building := false;
    }

    method EmitPrebuiltChunk(chunk: Chunk) returns (id: Text)
      modifies `prebuilt
      ensures View() == Prebuilt(env, old(View()), chunk) && id == env.idOf(chunk.fileName)
    {
      id := env.idOf(chunk.fileName);
      prebuilt := prebuilt[id := chunk];
    }

    method InsertNewFile(e: Emission, hash: Text, id: Text, rendered: Option<Text>) returns (r: Result<(), Error>)
      modifies `files, `emitted
      ensures match Inserted(old(View()), id, e, hash, rendered)
              case Success(s) => r == Success(()) && View() == s
              case Failure(error) => r == Failure(error) && View() == old(View())
    {
      var fileName := e.fileName;
      if fileName.None? {
        if rendered.None? {
          return Failure(RenderFailed);
        }
        fileName := rendered;
      }
      if id in flushedHash && flushedHash[id] != hash {
        emitted := emitted - {id};
      }
      files := files[id := Asset(fileName.value, e.source, Listed(e.name), Listed(e.original))];
      r := Success(());
    }

    /** The name that is checked is the given file name, or the name of an asset without one; an emission that fails
        changes nothing. */
    method EmitFile(e: Emission, rendered: Option<Text>) returns (r: Result<Text, Error>)
      modifies `idOfHash, `files, `emitted
      ensures (View(), r) == Emitted(env, old(View()), e, rendered)
      ensures forall x :: r == Failure(InvalidFileName(x)) <==>
          env.isPathFragment(x) && (e.fileName == Some(x) || (e.fileName == None && e.name == Some(x)))
      ensures r.Failure? ==> View() == old(View())
    {
      var name := ValidatedName(e);
      if name.Some? && env.isPathFragment(name.value) {
        return Failure(InvalidFileName(name.value));
      }
      var hash := env.hash(e.source);
      if e.fileName.None? {
        if hash in idOfHash {
          var id := idOfHash[hash];
          if id in files {
            var output := files[id];
            if building && id !in emitted && e.name.Some? && IsShorterThanAll(e.name.value, output.names) {
              if rendered.None? {
                return Failure(RenderFailed);
              }
              output := output.(fileName := rendered.value);
            }
            if e.name.Some? {
              output := output.(names := output.names + [e.name.value]);
            }
            if e.original.Some? {
              output := output.(originals := output.originals + [e.original.value]);
            }
            assert output.names == files[id].names + Listed(e.name);
            assert output.originals == files[id].originals + Listed(e.original);
            files := files[id := output];
          }
          return Success(id);
        } else {
          var id := env.idOf(hash);
          var inserted := InsertNewFile(e, hash, id, rendered);
          if inserted.Failure? {
            return Failure(inserted.error);
          }
          idOfHash := idOfHash[hash := id];
          return Success(id);
        }
      }
      var id := env.idOf(e.fileName.value);
      var inserted := InsertNewFile(e, hash, id, rendered);
      assert inserted.Success?;
      r := Success(id);
    }

    /** One step over the entries, with the warning it gives. */
    method FlushOne(id: Text) returns (a: Asset, conflict: bool)
      requires id in files && id !in emitted
      modifies `files, `emitted, `flushedHash, `takenNames
      ensures View() == OneFlushed(env, old(View()), id)
      ensures a == OutputOf(old(files[id])) && conflict == Conflicts(env, old(View()), id)
    {
      var value := files[id];
      emitted := emitted + {id};
      conflict := false;
      if id !in flushedHash {
        var lower := env.lower(value.fileName);
        conflict := lower in takenNames;
        takenNames := takenNames + {lower};
      }
      flushedHash := flushedHash[id := env.hash(value.source)];
      a := value.(names := Sort(ShorterOrSame, value.names), originals := Sort(NameOrder, value.originals));
      files := files[id := Drained(value)];
    }

    /** Visits the entries in an arbitrary order, as the concurrent map does. */
    method FlushAssets() returns (assets: seq<Asset>, warnings: seq<Text>)
      modifies `files, `emitted, `flushedHash, `takenNames
      ensures View() == FlushedFiles(env, old(View()), DirtyFiles(old(View())))
      ensures AreFlushedAssets(old(View()), assets)
      ensures NamesAdd(old(View()), View(), DirtyFiles(old(View())), warnings)
    {
      ghost var s, order := View(), [];
      var pending := files.Keys;
      assets, warnings := [], [];
      FlushingStarts(env, s);
      while pending != {}
        invariant Flushing(env, s, View(), pending, order, assets, warnings)
      {
        var id :| id in pending;
        FlushingSkips(env, s, View(), pending, order, assets, warnings, id);
        if id !in emitted {
          FlushingAdds(env, s, View(), pending, order, assets, warnings, id);
          var fileName := files[id].fileName;
          var a, conflict := FlushOne(id);
          if conflict {
            warnings := warnings + [fileName];
          }
          assets := assets + [a];
          order := order + [id];
        }
        pending := pending - {id};
      }
      FlushingEnds(env, s, View(), order, assets, warnings);
      assets := Sort(ByFileName, assets);
    }

    method FlushOneChunk(id: Text) returns (conflict: bool)
      requires id in prebuilt
      modifies `emitted, `takenNames
      ensures View() == OneChunkFlushed(env, old(View()), id) && conflict == ChunkConflicts(env, old(View()), id)
    {
      var lower := env.lower(prebuilt[id].fileName);
      conflict := lower in takenNames;
      emitted := emitted + {id};
      takenNames := takenNames + {lower};
    }

    method FlushChunks() returns (chunks: seq<Chunk>, warnings: seq<Text>)
      modifies `emitted, `takenNames
      ensures View() == FlushedChunks(env, old(View()), UnflushedChunks(old(View())))
      ensures AreUnflushedChunks(old(View()), chunks)
      ensures ChunkNamesAdd(old(View()), View(), UnflushedChunks(old(View())), warnings)
    {
      ghost var s, order := View(), [];
      var pending := prebuilt.Keys;
      chunks, warnings := [], [];
      FlushingChunksStarts(env, s);
      while pending != {}
        invariant FlushingChunks(env, s, View(), pending, order, chunks, warnings)
      {
        var id :| id in pending;
        FlushingChunksSkips(env, s, View(), pending, order, chunks, warnings, id);
        if id !in emitted {
          FlushingChunksAdds(env, s, View(), pending, order, chunks, warnings, id);
          var chunk := prebuilt[id];
          var conflict := FlushOneChunk(id);
          if conflict {
            warnings := warnings + [chunk.fileName];
          }
          chunks := chunks + [chunk];
          order := order + [id];
        }
        pending := pending - {id};
      }
      FlushingChunksEnds(env, s, View(), order, chunks, warnings);
    }

    /** The flush. Each first flush of a name either takes the lower-case name or is reported, so the
        number of warnings does not depend on the order of the visits. */
    method AddAdditionalFiles() returns (assets: seq<Asset>, chunks: seq<Chunk>, warnings: seq<Text>)
      modifies this
      ensures View() == Flushed(env, old(View()))
      ensures AreFlushedAssets(old(View()), assets) && AreFlushedChunks(old(View()), chunks)
      ensures |warnings| == |old(takenNames)| + |FirstFlushes(old(View()), DirtyFiles(old(View())))|
                            + |DirtyChunks(old(View()))| - |takenNames|
    {
      ghost var s := View();
      var first, second;
      assets, first := FlushAssets();
      AssetsGoFirst(env, s);
      chunks, second := FlushChunks();
      warnings := first + second;
      ghost var order :| Lists(order, DirtyChunks(s)) && chunks == ChunksOf(FlushedFiles(env, s, DirtyFiles(s)), order);
      assert chunks == ChunksOf(s, order);
    }
  }
}
