/** What holds over any run of emissions and flushes of the file emitter. */
module EmitterRuns {
  import opened Wrappers
  import opened FileEmitters
  import opened Sorting
  import opened Strings

  /** The emitter, with what each id was last emitted with and last flushed with: the content of an
      asset, or the whole of a prebuilt chunk. */
  datatype World = World(
    store: Store,
    last: map<Text, Source>,
    flushed: map<Text, Source>,
    lastChunk: map<Text, Chunk>,
    flushedChunk: map<Text, Chunk>)

  const START := World(EMPTY, map[], map[], map[], map[])

  datatype Op =
    | EmitAsset(e: Emission, rendered: Option<Text>)
    | EmitChunk(chunk: Chunk)
    | Flush
    | EnterBuild
    | EnterOutput
    | Reset

  function AfterEmission(env: Env, w: World, e: Emission, rendered: Option<Text>): World {
    var r := Emitted(env, w.store, e, rendered);
    w.(store := r.0, last := if r.1.Success? then w.last[r.1.value := e.source] else w.last)
  }

  function FlushedContents(s: Store): map<Text, Source> {
    map id | id in s.files && id !in s.emitted :: s.files[id].source
  }

  function FlushedChunkContents(s: Store): map<Text, Chunk> {
    map id | id in DirtyChunks(s) :: s.prebuilt[id]
  }

  function Step(env: Env, w: World, op: Op): World {
    match op
    case EmitAsset(e, rendered) => AfterEmission(env, w, e, rendered)
    case EmitChunk(chunk) =>
      w.(store := Prebuilt(env, w.store, chunk), lastChunk := w.lastChunk[env.idOf(chunk.fileName) := chunk])
    case Flush =>
      w.(store := Flushed(env, w.store), flushed := w.flushed + FlushedContents(w.store),
         flushedChunk := w.flushedChunk + FlushedChunkContents(w.store))
    case EnterBuild => w.(store := w.store.(building := true))
    case EnterOutput => w.(store := w.store.(building := false))
    case Reset => START
  }

  function Run(env: Env, w: World, ops: seq<Op>): World
    decreases |ops|
  {
    if ops == [] then w else Run(env, Step(env, w, ops[0]), ops[1..])
  }

  // ---- One emission -----------------------------------------------------------------------

  /** The latest content of `id` is held in full, or has been flushed. */
  ghost predicate Covered(w: World, id: Text) {
    && id in w.store.files && id in w.last
    && if id in w.store.emitted then id in w.flushed && w.flushed[id] == w.last[id]
       else w.store.files[id].source == w.last[id]
  }

  /** The hashes on record are those of the contents that were flushed. */
  ghost predicate HashesAgree(env: Env, w: World) {
    && w.store.flushedHash.Keys == w.flushed.Keys
    && forall id | id in w.flushed :: w.store.flushedHash[id] == env.hash(w.flushed[id])
  }

  /** The id belongs to something else than this emission: it was deduplicated against an entry that
      has been overwritten since, or a prebuilt chunk with the same name was flushed before it. */
  predicate Collides(env: Env, w: World, e: Emission) {
    var hash := env.hash(e.source);
    if e.fileName.None? && hash in w.store.idOfHash then
      var id := w.store.idOfHash[hash];
      id !in w.last || w.last[id] != e.source
    else
      var id := env.idOf(if e.fileName.Some? then e.fileName.value else hash);
      id in w.store.emitted && id !in w.store.flushedHash
  }

  /** A successful emission leaves its content held or flushed exactly if its id is not shared. */
  lemma EmissionIsCovered(env: Env, w: World, e: Emission, rendered: Option<Text>)
    requires env.NoCollisions() && HashesAgree(env, w) && (forall id | id in w.store.files :: Covered(w, id))
    requires w.last.Keys == w.store.files.Keys && forall h | h in w.store.idOfHash ::
        w.store.idOfHash[h] in w.store.files
    requires Emitted(env, w.store, e, rendered).1.Success?
    ensures Covered(AfterEmission(env, w, e, rendered), Emitted(env, w.store, e, rendered).1.value) <==>
        !Collides(env, w, e)
  {
    var hash := env.hash(e.source);
    if e.fileName.None? && hash in w.store.idOfHash {
      assert Covered(w, w.store.idOfHash[hash]);
    }
  }

  // ---- Runs -------------------------------------------------------------------------------

  /** What a text is the seed of: a given file name, a content hash, or a prebuilt chunk's name. */
  datatype Origin = GivenName | ContentHash | PrebuiltName

  /** No text is used in two of these ways. */
  predicate Respects(env: Env, origin: Text -> Origin, op: Op) {
    match op
    case EmitAsset(e, _) =>
      if e.fileName.Some? then origin(e.fileName.value) == GivenName else origin(env.hash(e.source)) == ContentHash
    case EmitChunk(chunk) => origin(chunk.fileName) == PrebuiltName
    case _ => true
  }

  ghost predicate IsHashEntry(env: Env, origin: Text -> Origin, w: World, hash: Text) {
    && hash in w.store.idOfHash && w.store.idOfHash[hash] == env.idOf(hash) && env.idOf(hash) in w.last
    && origin(hash) == ContentHash && env.hash(w.last[env.idOf(hash)]) == hash
    && (env.idOf(hash) in w.flushed ==> env.idOf(hash) in w.store.emitted)
  }

  /** An asset is known either by its content or by its given name, which is then its file name. */
  ghost predicate IsFileSeed(env: Env, origin: Text -> Origin, w: World, id: Text, seed: Text) {
    && id == env.idOf(seed) && id in w.store.files
    && if origin(seed) == ContentHash then seed in w.store.idOfHash
       else origin(seed) == GivenName && w.store.files[id].fileName == seed
  }

  ghost predicate IsPrebuiltSeed(env: Env, origin: Text -> Origin, id: Text, seed: Text) {
    id == env.idOf(seed) && origin(seed) == PrebuiltName
  }

  ghost predicate IdsAgree(env: Env, origin: Text -> Origin, w: World) {
    && (forall h {:trigger IsHashEntry(env, origin, w, h)} | h in w.store.idOfHash :: IsHashEntry(env, origin, w, h))
    && (forall id | id in w.store.files :: exists seed :: IsFileSeed(env, origin, w, id, seed))
    && (forall id | id in w.store.prebuilt || (id in w.store.emitted && id !in w.flushed) ::
          exists seed :: IsPrebuiltSeed(env, origin, id, seed))
  }

  ghost predicate ContentsAgree(env: Env, w: World) {
    && HashesAgree(env, w) && w.last.Keys == w.store.files.Keys && w.flushed.Keys <= w.store.files.Keys
    && forall id {:trigger Covered(w, id)} | id in w.store.files :: Covered(w, id)
  }

  ghost predicate Inv(env: Env, origin: Text -> Origin, w: World) {
    ContentsAgree(env, w) && IdsAgree(env, origin, w)
  }

  /** Ids do not mix up the three kinds of seed. */
  lemma SeedsStayApart(env: Env, origin: Text -> Origin, w: World, id: Text, seed: Text)
    requires env.NoCollisions() && IdsAgree(env, origin, w) && id == env.idOf(seed)
    ensures id in w.store.files ==> IsFileSeed(env, origin, w, id, seed)
    ensures id in w.store.emitted && id !in w.flushed ==> origin(seed) == PrebuiltName
  {
  }

  lemma NoCollision(env: Env, origin: Text -> Origin, w: World, e: Emission, rendered: Option<Text>)
    requires env.NoCollisions() && Inv(env, origin, w) && Respects(env, origin, EmitAsset(e, rendered))
    ensures !Collides(env, w, e)
  {
    var hash := env.hash(e.source);
    if e.fileName.None? && hash in w.store.idOfHash {
      assert IsHashEntry(env, origin, w, hash);
    } else {
      var seed := if e.fileName.Some? then e.fileName.value else hash;
      SeedsStayApart(env, origin, w, env.idOf(seed), seed);
    }
  }

  /** `next` differs from `w` in what belongs to `id` only. */
  ghost predicate OnlyTouches(w: World, next: World, id: Text) {
    && next.flushed == w.flushed && next.store.flushedHash == w.store.flushedHash
        && next.store.prebuilt == w.store.prebuilt
    && next.store.files.Keys == w.store.files.Keys + {id} && next.last.Keys == w.last.Keys + {id}
    && next.store.emitted <= w.store.emitted
    && forall x {:trigger Same(w, next, x)} | x != id :: Same(w, next, x)
  }

  ghost predicate Same(w: World, next: World, x: Text) {
    && (x in w.store.files ==> x in next.store.files && next.store.files[x] == w.store.files[x])
    && (x in w.last ==> x in next.last && next.last[x] == w.last[x])
    && (x in next.store.emitted <==> x in w.store.emitted)
  }

  /** The seed an emission names its entry by. */
  function SeedOf(env: Env, e: Emission): Text {
    if e.fileName.Some? then e.fileName.value else env.hash(e.source)
  }

  ghost predicate HashesAreKnown(env: Env, w: World) {
    forall h | h in w.store.idOfHash :: w.store.idOfHash[h] == env.idOf(h) && env.idOf(h) in w.store.files
  }

  lemma EntriesAreKnown(env: Env, origin: Text -> Origin, w: World)
    requires Inv(env, origin, w)
    ensures HashesAreKnown(env, w)
  {
    forall h | h in w.store.idOfHash ensures w.store.idOfHash[h] == env.idOf(h) && env.idOf(h) in w.store.files {
      assert IsHashEntry(env, origin, w, h);
    }
  }

  lemma EmissionId(env: Env, w: World, e: Emission, rendered: Option<Text>)
    requires HashesAreKnown(env, w) && Emitted(env, w.store, e, rendered).1.Success?
    ensures Emitted(env, w.store, e, rendered).1 == Success(env.idOf(SeedOf(env, e)))
    ensures e.fileName.None? && SeedOf(env, e) in w.store.idOfHash ==> env.idOf(SeedOf(env, e)) in w.store.files
  {
  }

  lemma EmissionTouches(env: Env, w: World, e: Emission, rendered: Option<Text>)
    requires HashesAreKnown(env, w) && Emitted(env, w.store, e, rendered).1.Success?
    ensures OnlyTouches(w, AfterEmission(env, w, e, rendered), env.idOf(SeedOf(env, e)))
  {
    EmissionId(env, w, e, rendered);
  }

  /** A successful emission changes the entry of its seed and nothing else. */
  lemma EmissionTouchesOne(env: Env, w: World, e: Emission, rendered: Option<Text>)
    requires HashesAreKnown(env, w) && Emitted(env, w.store, e, rendered).1.Success?
    ensures var next, id := AfterEmission(env, w, e, rendered), env.idOf(SeedOf(env, e));
      && Emitted(env, w.store, e, rendered).1 == Success(id)
      && OnlyTouches(w, next, id) && next.last[id] == e.source
      && next.store.idOfHash == (if e.fileName.Some? then w.store.idOfHash else w.store.idOfHash[SeedOf(env, e) := id])
      && (e.fileName.Some? ==> next.store.files[id].fileName == e.fileName.value)
      && (e.fileName.None? && SeedOf(env, e) in w.store.idOfHash ==> next.store.emitted == w.store.emitted)
  {
    EmissionId(env, w, e, rendered);
    EmissionTouches(env, w, e, rendered);
  }

  lemma TouchKeepsContents(env: Env, w: World, next: World, id: Text)
    requires ContentsAgree(env, w) && OnlyTouches(w, next, id) && Covered(next, id)
    ensures ContentsAgree(env, next)
  {
    forall x | x in next.store.files ensures Covered(next, x) {
      if x != id {
        assert Covered(w, x) && Same(w, next, x);
      }
    }
  }

  lemma TouchKeepsEntries(env: Env, origin: Text -> Origin, w: World, next: World, seed: Text)
    requires env.NoCollisions() && IdsAgree(env, origin, w) && OnlyTouches(w, next, env.idOf(seed))
    requires if origin(seed) == ContentHash then IsHashEntry(env, origin, next, seed)
        && next.store.idOfHash == w.store.idOfHash[seed := env.idOf(seed)]
             else next.store.idOfHash == w.store.idOfHash
    ensures forall h | h in next.store.idOfHash :: IsHashEntry(env, origin, next, h)
  {
    forall h | h in next.store.idOfHash ensures IsHashEntry(env, origin, next, h) {
      if h != seed || origin(seed) != ContentHash {
        assert IsHashEntry(env, origin, w, h) && Same(w, next, env.idOf(h));
      }
    }
  }

  lemma TouchKeepsSeeds(env: Env, origin: Text -> Origin, w: World, next: World, seed: Text)
    requires env.NoCollisions() && IdsAgree(env, origin, w) && OnlyTouches(w, next, env.idOf(seed))
    requires IsFileSeed(env, origin, next, env.idOf(seed), seed) && w.store.idOfHash.Keys <= next.store.idOfHash.Keys
    ensures forall id | id in next.store.files :: exists x :: IsFileSeed(env, origin, next, id, x)
  {
    forall id | id in next.store.files ensures exists x :: IsFileSeed(env, origin, next, id, x) {
      if id == env.idOf(seed) {
        assert IsFileSeed(env, origin, next, id, seed);
      } else {
        var x :| IsFileSeed(env, origin, w, id, x);
        assert Same(w, next, id);
        assert IsFileSeed(env, origin, next, id, x);
      }
    }
  }

  lemma EmissionKeepsInv(env: Env, origin: Text -> Origin, w: World, e: Emission, rendered: Option<Text>)
    requires env.NoCollisions() && Inv(env, origin, w) && Respects(env, origin, EmitAsset(e, rendered))
    ensures Inv(env, origin, AfterEmission(env, w, e, rendered))
  {
    var next, seed := AfterEmission(env, w, e, rendered), SeedOf(env, e);
    if Emitted(env, w.store, e, rendered).1.Success? {
      EntriesAreKnown(env, origin, w);
      EmissionTouchesOne(env, w, e, rendered);
      assert Covered(next, env.idOf(seed)) by {
        EmissionIsCovered(env, w, e, rendered);
        NoCollision(env, origin, w, e, rendered);
      }
      TouchKeepsContents(env, w, next, env.idOf(seed));
      EmissionKeepsIds(env, origin, w, next, e);
    } else {
      assert next.store == w.store;
    }
  }

  lemma EmissionKeepsIds(env: Env, origin: Text -> Origin, w: World, next: World, e: Emission)
    requires env.NoCollisions() && Inv(env, origin, w)
    requires origin(SeedOf(env, e)) == if e.fileName.Some? then GivenName else ContentHash
    requires var id := env.idOf(SeedOf(env, e));
      && OnlyTouches(w, next, id) && next.last[id] == e.source
      && next.store.idOfHash == (if e.fileName.Some? then w.store.idOfHash else w.store.idOfHash[SeedOf(env, e) := id])
      && (e.fileName.Some? ==> next.store.files[id].fileName == e.fileName.value)
      && (e.fileName.None? && SeedOf(env, e) in w.store.idOfHash ==> next.store.emitted == w.store.emitted)
    ensures IdsAgree(env, origin, next)
  {
    var seed := SeedOf(env, e);
    if e.fileName.None? {
      SeedsStayApart(env, origin, w, env.idOf(seed), seed);
      assert IsHashEntry(env, origin, next, seed) by {
        assert seed in w.store.idOfHash ==> IsHashEntry(env, origin, w, seed);
      }
    }
    TouchKeepsEntries(env, origin, w, next, seed);
    TouchKeepsSeeds(env, origin, w, next, seed);
    forall id | id in next.store.prebuilt || (id in next.store.emitted && id !in next.flushed)
      ensures exists x :: IsPrebuiltSeed(env, origin, id, x)
    {
    }
  }

  // ---- The flush --------------------------------------------------------------------------

  /** What a flush does to one asset, and what it leaves alone. */
  lemma FlushEffect(env: Env, w: World, id: Text)
    requires ContentsAgree(env, w)
    ensures var next := Step(env, w, Flush);
      && next.store.files.Keys == w.store.files.Keys && next.store.idOfHash == w.store.idOfHash
      && next.store.prebuilt == w.store.prebuilt && next.last == w.last
      && (id in w.store.files ==>
            && id in next.store.emitted && id in next.flushed && next.flushed[id] == w.last[id]
            && next.store.files[id].fileName == w.store.files[id].fileName
            && id in next.store.flushedHash && next.store.flushedHash[id] == env.hash(w.last[id]))
      && (id !in w.store.files ==>
            && id !in next.flushed && id !in next.store.flushedHash
            && (id in next.store.emitted ==> id in w.store.emitted || id in w.store.prebuilt))
  {
    if id in w.store.files {
      assert Covered(w, id);
    }
  }

  lemma FlushKeepsInv(env: Env, origin: Text -> Origin, w: World)
    requires Inv(env, origin, w)
    ensures Inv(env, origin, Step(env, w, Flush))
  {
    var next := Step(env, w, Flush);
    assert FlushedLike(env, w, next) by {
      forall id ensures FlushedAt(env, w, next, id) {
        FlushEffect(env, w, id);
      }
      FlushEffect(env, w, Text(""));
    }
    FlushedLikeKeepsContents(env, w, next);
    FlushedLikeKeepsIds(env, origin, w, next);
  }

  ghost predicate FlushedAt(env: Env, w: World, next: World, id: Text) {
    if id in w.store.files then
      && id in w.last && id in next.store.files && id in next.store.emitted && id in next.flushed
          && next.flushed[id] == w.last[id]
      && next.store.files[id].fileName == w.store.files[id].fileName
      && id in next.store.flushedHash && next.store.flushedHash[id] == env.hash(w.last[id])
    else
      && id !in next.flushed && id !in next.store.flushedHash
      && (id in next.store.emitted ==> id in w.store.emitted || id in w.store.prebuilt)
  }

  ghost predicate FlushedLike(env: Env, w: World, next: World) {
    && next.store.files.Keys == w.store.files.Keys && next.store.idOfHash == w.store.idOfHash
    && next.store.prebuilt == w.store.prebuilt && next.last == w.last
    && forall id {:trigger FlushedAt(env, w, next, id)} :: FlushedAt(env, w, next, id)
  }

  lemma FlushedLikeKeepsContents(env: Env, w: World, next: World)
    requires ContentsAgree(env, w) && FlushedLike(env, w, next)
    ensures ContentsAgree(env, next)
  {
    forall id ensures (id in next.flushed <==> id in w.store.files)
      && (id in next.store.flushedHash <==> id in w.store.files)
    {
      assert FlushedAt(env, w, next, id);
    }
    forall id | id in next.store.files ensures Covered(next, id)
      && next.store.flushedHash[id] == env.hash(next.flushed[id])
    {
      assert FlushedAt(env, w, next, id);
    }
  }

  lemma FlushedLikeKeepsIds(env: Env, origin: Text -> Origin, w: World, next: World)
    requires IdsAgree(env, origin, w) && FlushedLike(env, w, next) && w.flushed.Keys <= w.store.files.Keys
        && w.last.Keys == w.store.files.Keys
    ensures IdsAgree(env, origin, next)
  {
    forall h | h in next.store.idOfHash ensures IsHashEntry(env, origin, next, h) {
      assert IsHashEntry(env, origin, w, h) && FlushedAt(env, w, next, env.idOf(h));
    }
    forall id | id in next.store.files ensures exists x :: IsFileSeed(env, origin, next, id, x) {
      var x :| IsFileSeed(env, origin, w, id, x);
      assert FlushedAt(env, w, next, id);
      assert IsFileSeed(env, origin, next, id, x);
    }
    forall id | id in next.store.prebuilt || (id in next.store.emitted && id !in next.flushed)
      ensures exists x :: IsPrebuiltSeed(env, origin, id, x)
    {
      assert FlushedAt(env, w, next, id);
    }
  }

  lemma StepKeepsInv(env: Env, origin: Text -> Origin, w: World, op: Op)
    requires env.NoCollisions() && Inv(env, origin, w) && Respects(env, origin, op)
    ensures Inv(env, origin, Step(env, w, op))
  {
    match op
    case EmitAsset(e, rendered) =>
      EmissionKeepsInv(env, origin, w, e, rendered);
    case EmitChunk(chunk) =>
      FlagsKeepInv(env, origin, w, Step(env, w, op), chunk.fileName);
    case Flush =>
      FlushKeepsInv(env, origin, w);
    case EnterBuild =>
      FlagsKeepInv(env, origin, w, Step(env, w, op), Text(""));
    case EnterOutput =>
      FlagsKeepInv(env, origin, w, Step(env, w, op), Text(""));
    case Reset =>
  }

  lemma FlagsKeepInv(env: Env, origin: Text -> Origin, w: World, next: World, seed: Text)
    requires Inv(env, origin, w) && next.last == w.last && next.flushed == w.flushed
    requires next.store == w.store.(building := next.store.building, prebuilt := next.store.prebuilt)
    requires forall id | id in next.store.prebuilt :: id in w.store.prebuilt || IsPrebuiltSeed(env, origin, id, seed)
    ensures Inv(env, origin, next)
  {
    forall id | id in next.store.files ensures Covered(next, id) {
      assert Covered(w, id);
    }
    forall h | h in next.store.idOfHash ensures IsHashEntry(env, origin, next, h) {
      assert IsHashEntry(env, origin, w, h);
    }
    forall id | id in next.store.files ensures exists x :: IsFileSeed(env, origin, next, id, x) {
      var x :| IsFileSeed(env, origin, w, id, x);
      assert IsFileSeed(env, origin, next, id, x);
    }
  }

  lemma {:induction false} RunKeepsInv(env: Env, origin: Text -> Origin, w: World, ops: seq<Op>)
    requires env.NoCollisions() && Inv(env, origin, w) && forall op | op in ops :: Respects(env, origin, op)
    ensures Inv(env, origin, Run(env, w, ops))
    decreases |ops|
  {
    if ops != [] {
      StepKeepsInv(env, origin, w, ops[0]);
      RunKeepsInv(env, origin, Step(env, w, ops[0]), ops[1..]);
    }
  }

  /** In any run, an asset that is not marked emitted still holds its latest content in full, and
      right after a flush the last flushed content of every asset is its last emitted content. */
  lemma LatestContentIsNeverLost(env: Env, origin: Text -> Origin, ops: seq<Op>)
    requires env.NoCollisions() && forall op | op in ops :: Respects(env, origin, op)
    ensures var w := Run(env, START, ops);
      && (forall id | id in w.last && id !in w.store.emitted ::
          id in w.store.files && w.store.files[id].source == w.last[id])
      && Step(env, w, Flush).flushed == w.last
  {
    RunKeepsInv(env, origin, START, ops);
    FlushCatchesUp(env, Run(env, START, ops));
  }

  lemma FlushedIsLast(env: Env, w: World, id: Text)
    requires ContentsAgree(env, w)
    ensures id in Step(env, w, Flush).flushed <==> id in w.last
    ensures id in w.last ==> Step(env, w, Flush).flushed[id] == w.last[id] && Covered(w, id)
  {
    FlushEffect(env, w, id);
  }

  lemma FlushCatchesUp(env: Env, w: World)
    requires ContentsAgree(env, w)
    ensures Step(env, w, Flush).flushed == w.last
    ensures forall id | id in w.last && id !in w.store.emitted ::
        id in w.store.files && w.store.files[id].source == w.last[id]
  {
    var flushed := Step(env, w, Flush).flushed;
    forall id
      ensures id in flushed <==> id in w.last
      ensures id in w.last ==> flushed[id] == w.last[id] && Covered(w, id)
    {
      FlushedIsLast(env, w, id);
    }
  }

  // ---- Prebuilt chunks --------------------------------------------------------------------

  /** What a run did with the chunk of one name since the last reset: nothing, emitted it and not
      flushed it yet, or flushed it for the first time as `first` and emitted it last as `latest`. */
  datatype Progress = Unseen | Waiting(chunk: Chunk) | Delivered(first: Chunk, latest: Chunk)
  {
    /** The last emission after the first flush was of something else. */
    predicate IsReplaced() {
      Delivered? && first != latest
    }
  }

  function NextProgress(p: Progress, op: Op, name: Text): Progress {
    match op
    case EmitChunk(chunk) =>
      if chunk.fileName != name then p else if p.Delivered? then p.(latest := chunk) else Waiting(chunk)
    case Flush => if p.Waiting? then Delivered(p.chunk, p.chunk) else p
    case Reset => Unseen
    case _ => p
  }

  function ProgressFrom(p: Progress, ops: seq<Op>, name: Text): Progress
    decreases |ops|
  {
    if ops == [] then p else ProgressFrom(NextProgress(p, ops[0], name), ops[1..], name)
  }

  ghost predicate Tracks(env: Env, w: World, name: Text, p: Progress) {
    var id := env.idOf(name);
    match p
    case Unseen => id !in w.store.prebuilt && id !in w.store.emitted && id !in w.lastChunk && id !in w.flushedChunk
    case Waiting(chunk) =>
      && id in w.store.prebuilt && w.store.prebuilt[id] == chunk && id !in w.store.emitted
      && id in w.lastChunk && w.lastChunk[id] == chunk && id !in w.flushedChunk
    case Delivered(first, latest) =>
      && id in w.store.prebuilt && w.store.prebuilt[id] == latest && id in w.store.emitted
      && id in w.lastChunk && w.lastChunk[id] == latest && id in w.flushedChunk && w.flushedChunk[id] == first
  }

  /** The id of a chunk's name is no asset's. */
  lemma ChunkIsNoAsset(env: Env, origin: Text -> Origin, w: World, name: Text)
    requires env.NoCollisions() && Inv(env, origin, w) && origin(name) == PrebuiltName
    ensures env.idOf(name) !in w.store.files
  {
    SeedsStayApart(env, origin, w, env.idOf(name), name);
  }

  lemma EmissionKeepsProgress(
      env: Env, origin: Text -> Origin, w: World, e: Emission, rendered: Option<Text>, name: Text, p: Progress)
    requires env.NoCollisions() && Inv(env, origin, w) && Respects(env, origin, EmitAsset(e, rendered))
    requires origin(name) == PrebuiltName && Tracks(env, w, name, p)
    ensures Tracks(env, AfterEmission(env, w, e, rendered), name, p)
  {
    if Emitted(env, w.store, e, rendered).1.Success? {
      EntriesAreKnown(env, origin, w);
      EmissionTouchesOne(env, w, e, rendered);
      assert env.idOf(SeedOf(env, e)) != env.idOf(name);
      assert Same(w, AfterEmission(env, w, e, rendered), env.idOf(name));
    }
  }

  lemma FlushKeepsProgress(env: Env, w: World, name: Text, p: Progress)
    requires Tracks(env, w, name, p) && env.idOf(name) !in w.store.files
    ensures Tracks(env, Step(env, w, Flush), name, NextProgress(p, Flush, name))
  {
    assert env.idOf(name) in DirtyChunks(w.store) <==> p.Waiting?;
  }

  lemma StepKeepsProgress(env: Env, origin: Text -> Origin, w: World, op: Op, name: Text, p: Progress)
    requires env.NoCollisions() && Inv(env, origin, w) && Respects(env, origin, op)
    requires origin(name) == PrebuiltName && Tracks(env, w, name, p)
    ensures Tracks(env, Step(env, w, op), name, NextProgress(p, op, name))
  {
    match op
    case EmitAsset(e, rendered) => EmissionKeepsProgress(env, origin, w, e, rendered, name, p);
    case Flush =>
      ChunkIsNoAsset(env, origin, w, name);
      FlushKeepsProgress(env, w, name, p);
    case _ =>
  }

  lemma {:induction false} RunTracks(env: Env, origin: Text -> Origin, w: World, ops: seq<Op>, name: Text, p: Progress)
    requires env.NoCollisions() && Inv(env, origin, w) && forall op | op in ops :: Respects(env, origin, op)
    requires origin(name) == PrebuiltName && Tracks(env, w, name, p)
    ensures Tracks(env, Run(env, w, ops), name, ProgressFrom(p, ops, name))
    decreases |ops|
  {
    if ops != [] {
      StepKeepsInv(env, origin, w, ops[0]);
      StepKeepsProgress(env, origin, w, ops[0], name, p);
      RunTracks(env, origin, Step(env, w, ops[0]), ops[1..], name, NextProgress(p, ops[0], name));
    }
  }

  /** In any run, a chunk that was emitted since the last reset has been flushed after the next flush;
      what was flushed is what was emitted last if and only if its last emission after its first flush,
      if any, is the same as what that flush output. */
  lemma ChunkIsLatestIff(env: Env, origin: Text -> Origin, ops: seq<Op>, name: Text)
    requires env.NoCollisions() && (forall op | op in ops :: Respects(env, origin, op)) && origin(name) == PrebuiltName
    ensures var p, id, w := ProgressFrom(Unseen, ops, name), env.idOf(name), Step(env, Run(env, START, ops), Flush);
      && (id in w.lastChunk <==> !p.Unseen?) && (id in w.flushedChunk <==> !p.Unseen?)
      && (!p.Unseen? ==> (w.flushedChunk[id] == w.lastChunk[id] <==> !p.IsReplaced()))
  {
    var p, w := ProgressFrom(Unseen, ops, name), Run(env, START, ops);
    RunTracks(env, origin, START, ops, name, Unseen);
    RunKeepsInv(env, origin, START, ops);
    ChunkIsNoAsset(env, origin, w, name);
    FlushKeepsProgress(env, w, name, p);
  }

  /** The last emission of the chunk among the operations. */
  function LastEmission(ops: seq<Op>, name: Text, before: Chunk): Chunk
    decreases |ops|
  {
    if ops == [] then before
    else LastEmission(ops[1..], name,
           if ops[0].EmitChunk? && ops[0].chunk.fileName == name then ops[0].chunk else before)
  }

  lemma {:induction false} DeliveredStaysFirst(first: Chunk, latest: Chunk, ops: seq<Op>, name: Text)
    requires Reset !in ops
    ensures ProgressFrom(Delivered(first, latest), ops, name) == Delivered(first, LastEmission(ops, name, latest))
    decreases |ops|
  {
    if ops != [] {
      assert ops[0] in ops && ops[0] != Reset;
      var next := if ops[0].EmitChunk? && ops[0].chunk.fileName == name then ops[0].chunk else latest;
      DeliveredStaysFirst(first, next, ops[1..], name);
    }
  }

  /** Read forward from the first flush: whatever is emitted later, and however often it is flushed, the
      chunk is replaced exactly if its last emission differs from what was flushed first. */
  lemma ReplacedAfterFirstFlush(chunk: Chunk, later: seq<Op>, name: Text)
    requires Reset !in later
    ensures ProgressFrom(Waiting(chunk), [Flush] + later, name).IsReplaced() <==>
      LastEmission(later, name, chunk) != chunk
  {
    assert ([Flush] + later)[1..] == later;
    DeliveredStaysFirst(chunk, chunk, later, name);
  }

  /** Emitting a chunk, flushing, emitting it with other code and flushing again drops the new code:
      nothing clears the mark that it was flushed. */
  lemma ReemittedChunkIsDropped(env: Env, one: Chunk, two: Chunk)
    requires one.fileName == two.fileName && one != two
    ensures var id := env.idOf(one.fileName);
      var w := Step(env, Step(env, Step(env, START, EmitChunk(one)), Flush), EmitChunk(two));
      && id in w.store.prebuilt && w.store.prebuilt[id] == two && id in w.lastChunk && w.lastChunk[id] == two
      && DirtyChunks(w.store) == {} && Step(env, w, Flush).flushedChunk == map[id := one]
  {
    var id := env.idOf(one.fileName);
    var w1 := Step(env, START, EmitChunk(one));
    assert DirtyChunks(w1.store) == {id};
    var w2 := Step(env, w1, Flush);
    assert w2.flushedChunk == map[id := one] && id in w2.store.emitted;
    var w3 := Step(env, w2, EmitChunk(two));
    assert DirtyChunks(w3.store) == {} && FlushedChunkContents(w3.store) == map[];
    assert w3.flushedChunk + map[] == w3.flushedChunk;
  }

  /** A second flush right after the first finds nothing to add, and changes nothing. */
  lemma SecondFlushAddsNothing(env: Env, s: Store)
    ensures var t := Flushed(env, s); DirtyFiles(t) == {} && DirtyChunks(t) == {} && Flushed(env, t) == t
  {
    var t := Flushed(env, s);
    assert DirtyFiles(t) == {} && DirtyChunks(t) == {};
    FlushNone(env, t);
    assert FlushedChunks(env, t, {}) == t by {
      assert ChunkNamesAfter(env, t, {}) == t.takenNames;
    }
  }

  // ---- File names -------------------------------------------------------------------------

  /** From here on the name of `id` is fixed. */
  predicate NameIsFixed(w: World, id: Text) {
    id in w.store.files && (id in w.flushed || !w.store.building)
  }

  /** An emission leaves such a name alone. */
  lemma EmissionKeepsName(env: Env, origin: Text -> Origin, w: World, e: Emission, rendered: Option<Text>, id: Text)
    requires env.NoCollisions() && Inv(env, origin, w) && Respects(env, origin, EmitAsset(e, rendered))
        && NameIsFixed(w, id)
    ensures var next := AfterEmission(env, w, e, rendered);
      id in next.store.files && next.store.files[id].fileName == w.store.files[id].fileName
  {
    if Emitted(env, w.store, e, rendered).1.Success? {
      EntriesAreKnown(env, origin, w);
      EmissionTouchesOne(env, w, e, rendered);
      var next, seed := AfterEmission(env, w, e, rendered), SeedOf(env, e);
      if id != env.idOf(seed) {
        assert Same(w, next, id);
      } else {
        SeedsStayApart(env, origin, w, id, seed);
        if e.fileName.None? {
          assert IsHashEntry(env, origin, w, seed);
          assert !RepicksName(w.store, id, e);
        }
      }
    }
  }

  lemma {:induction false} RunKeepsName(env: Env, origin: Text -> Origin, w: World, ops: seq<Op>, id: Text)
    requires env.NoCollisions() && Inv(env, origin, w) && NameIsFixed(w, id)
    requires forall op | op in ops :: Respects(env, origin, op) && !op.Reset?
    requires id in w.flushed || EnterBuild !in ops
    ensures var end := Run(env, w, ops);
      id in end.store.files && end.store.files[id].fileName == w.store.files[id].fileName
    decreases |ops|
  {
    if ops != [] {
      var next := Step(env, w, ops[0]);
      StepKeepsInv(env, origin, w, ops[0]);
      StepKeepsName(env, origin, w, ops[0], id);
      RunKeepsName(env, origin, next, ops[1..], id);
    }
  }

  lemma StepKeepsName(env: Env, origin: Text -> Origin, w: World, op: Op, id: Text)
    requires env.NoCollisions() && Inv(env, origin, w) && NameIsFixed(w, id)
    requires Respects(env, origin, op) && !op.Reset? && (id in w.flushed || op != EnterBuild)
    ensures var next := Step(env, w, op);
      && id in next.store.files && next.store.files[id].fileName == w.store.files[id].fileName
      && NameIsFixed(next, id) && (id in w.flushed ==> id in next.flushed)
  {
    match op
    case EmitAsset(e, rendered) => EmissionKeepsName(env, origin, w, e, rendered, id);
    case Flush => FlushEffect(env, w, id);
    case _ =>
  }

  /** Once an asset has been flushed, or while the output phase lasts, its file name never changes. */
  lemma FileNameIsStable(env: Env, origin: Text -> Origin, before: seq<Op>, after: seq<Op>, id: Text)
    requires env.NoCollisions() && forall op | op in before + after :: Respects(env, origin, op)
    requires Reset !in after && NameIsFixed(Run(env, START, before), id)
    requires id in Run(env, START, before).flushed || EnterBuild !in after
    ensures var w, end := Run(env, START, before), Run(env, START, before + after);
      id in end.store.files && end.store.files[id].fileName == w.store.files[id].fileName
  {
    forall op | op in before ensures Respects(env, origin, op) {
      assert op in before + after;
    }
    RunKeepsInv(env, origin, START, before);
    forall op | op in after ensures Respects(env, origin, op) && !op.Reset? {
      assert op in before + after;
    }
    RunKeepsName(env, origin, Run(env, START, before), after, id);
    RunAppend(env, START, before, after);
  }

  lemma {:induction false} RunAppend(env: Env, w: World, before: seq<Op>, after: seq<Op>)
    ensures Run(env, w, before + after) == Run(env, Run(env, w, before), after)
    decreases |before|
  {
    if before == [] {
      assert before + after == after;
    } else {
      assert (before + after)[1..] == before[1..] + after;
      RunAppend(env, Step(env, w, before[0]), before[1..], after);
    }
  }

  // ---- Ids that are shared ----------------------------------------------------------------

  /** Over any run without shared ids, an emission makes a flushed asset wait for the next flush exactly if its content
      is not what was flushed; and it has no say about any other asset. */
  lemma ReflushedIff(
      env: Env, origin: Text -> Origin, ops: seq<Op>, e: Emission, rendered: Option<Text>, id: Text)
    requires env.NoCollisions() && Respects(env, origin, EmitAsset(e, rendered))
    requires forall op | op in ops :: Respects(env, origin, op)
    requires Emitted(env, Run(env, START, ops).store, e, rendered).1 == Success(id)
    ensures var w, next := Run(env, START, ops), Run(env, START, ops + [EmitAsset(e, rendered)]);
      && (id in w.flushed && id in w.store.emitted ==>
            (id in next.store.emitted <==> e.source == w.flushed[id]))
      && (forall x | x != id :: x in next.store.emitted <==> x in w.store.emitted)
  {
    var w, next := Run(env, START, ops), AfterEmission(env, Run(env, START, ops), e, rendered);
    RunAppend(env, START, ops, [EmitAsset(e, rendered)]);
    assert Run(env, w, [EmitAsset(e, rendered)]) == next by {
      assert [EmitAsset(e, rendered)][1..] == [];
    }
    RunKeepsInv(env, origin, START, ops);
    EntriesAreKnown(env, origin, w);
    EmissionTouchesOne(env, w, e, rendered);
    forall x | x != id ensures x in next.store.emitted <==> x in w.store.emitted {
      assert Same(w, next, x);
    }
    if id in w.flushed && id in w.store.emitted {
      if e.fileName.None? && SeedOf(env, e) in w.store.idOfHash {
        assert IsHashEntry(env, origin, w, SeedOf(env, e));
        assert Covered(w, id);
      }
    }
  }

  /** When the hash of an asset's content is also the given name of another asset, emitting that
      content again loses it: the entry keeps the other asset's content, flushed or not. */
  lemma GivenNameCanDropContent(env: Env, content: Source, other: Source, name: Text)
    requires env.NoCollisions() && content != other && !env.isPathFragment(env.hash(content))
    ensures var again := EmitAsset(Emission(None, None, None, content), Some(name));
      var given := EmitAsset(Emission(None, None, Some(env.hash(content)), other), None);
      var w := Step(env, Step(env, Step(env, START, again), given), again);
      var id := env.idOf(env.hash(content));
      && id in w.last && w.last[id] == content && !Covered(w, id)
      && id in Step(env, w, Flush).flushed && Step(env, w, Flush).flushed[id] == other
  {
    var again := EmitAsset(Emission(None, None, None, content), Some(name));
    var given := EmitAsset(Emission(None, None, Some(env.hash(content)), other), None);
    var hash, id := env.hash(content), env.idOf(env.hash(content));
    var w1 := Step(env, START, again);
    var w2 := Step(env, w1, given);
    var w3 := Step(env, w2, again);
    assert hash in w2.store.idOfHash && w2.store.files[id].source == other;
    assert w3.store.files[id].source == other && id !in w3.store.emitted;
  }

  // ---- The choice of a name ---------------------------------------------------------------

  /** One emission of a content: its names, and the file name the template gives for it. */
  datatype Take = Take(name: Option<Text>, original: Option<Text>, rendered: Text)

  predicate IsTakeOf(env: Env, op: Op, content: Source) {
    && op.EmitAsset? && op.e.fileName.None? && op.e.source == content && op.rendered.Some?
    && (op.e.name.Some? ==> !env.isPathFragment(op.e.name.value))
  }

  function TakesOf(env: Env, ops: seq<Op>, content: Source): seq<Take> {
    if ops == [] then []
    else
      var n := |ops| - 1;
      TakesOf(env, ops[..n], content) + if IsTakeOf(env, ops[n], content) then
        [Take(ops[n].e.name, ops[n].e.original, ops[n].rendered.value)] else []
  }

  function GivenNames(takes: seq<Take>): seq<Text> {
    if takes == [] then []
    else GivenNames(takes[..|takes| - 1]) + Listed(takes[|takes| - 1].name)
  }

  function GivenOriginals(takes: seq<Take>): seq<Text> {
    if takes == [] then []
    else GivenOriginals(takes[..|takes| - 1]) + Listed(takes[|takes| - 1].original)
  }

  /** The `k`-th has the shortest name, and is the first one with it; without any name it is the first. */
  ghost predicate HasShortest(takes: seq<Take>, k: nat) {
    && k < |takes| && (takes[k].name.None? ==> k == 0)
    && (forall j | 0 <= j < |takes| && takes[j].name.Some? ::
          && takes[k].name.Some?
          && (j < k ==> IsShorter(takes[k].name.value, takes[j].name.value))
          && (j != k ==> !IsShorter(takes[j].name.value, takes[k].name.value)))
  }

  ghost predicate HoldsTakes(env: Env, w: World, content: Source, takes: seq<Take>) {
    var hash := env.hash(content);
    var id := env.idOf(hash);
    && w.store.building && id !in w.store.emitted && hash in w.store.idOfHash && id in w.store.files
    && w.store.files[id].names == GivenNames(takes) && w.store.files[id].originals == GivenOriginals(takes)
    && exists k: nat :: HasShortest(takes, k) && w.store.files[id].fileName == takes[k].rendered
  }

  lemma ShorterThan(a: Text, b: Text, c: Text)
    ensures IsShorter(a, b) && !IsShorter(c, b) ==> IsShorter(a, c)
    ensures IsShorter(a, b) ==> !IsShorter(b, a)
  {
    NameOrders();
    ShorterIff(a, b);
    ShorterIff(b, a);
    ShorterIff(c, b);
    ShorterIff(a, c);
    assert ShorterOrSame(c, a) && ShorterOrSame(b, c) ==> ShorterOrSame(b, a);
  }

  lemma {:induction false} GivenNamesAre(takes: seq<Take>, x: Text)
    ensures x in GivenNames(takes) <==> exists j :: 0 <= j < |takes| && takes[j].name == Some(x)
  {
    if takes != [] {
      var n := |takes| - 1;
      GivenNamesAre(takes[..n], x);
      if j :| 0 <= j < |takes| && takes[j].name == Some(x) {
        assert j < n ==> takes[..n][j].name == Some(x);
      }
    }
  }

  lemma RepicksIff(takes: seq<Take>, n: Text)
    ensures IsShorterThanAll(n, GivenNames(takes)) <==>
            forall j | 0 <= j < |takes| && takes[j].name.Some? :: IsShorter(n, takes[j].name.value)
  {
    forall j | 0 <= j < |takes| && takes[j].name.Some?
      ensures takes[j].name.value in GivenNames(takes)
      ensures IsShorter(n, takes[j].name.value) <==> !ShorterOrSame(takes[j].name.value, n)
    {
      GivenNamesAre(takes, takes[j].name.value);
      ShorterIff(n, takes[j].name.value);
    }
    forall x | x in GivenNames(takes) ensures exists j :: 0 <= j < |takes| && takes[j].name == Some(x) {
      GivenNamesAre(takes, x);
    }
  }

  lemma PickStays(takes: seq<Take>, k: nat, take: Take)
    requires HasShortest(takes, k)
    requires take.name.Some? ==>
      exists j :: 0 <= j < |takes| && takes[j].name.Some? && !IsShorter(take.name.value, takes[j].name.value)
    ensures HasShortest(takes + [take], k)
  {
    var all := takes + [take];
    if take.name.Some? {
      var j :| 0 <= j < |takes| && takes[j].name.Some? && !IsShorter(take.name.value, takes[j].name.value);
      var best := takes[k].name.value;
      ShorterThan(take.name.value, best, takes[j].name.value);
    }
    forall j | 0 <= j < |all| && all[j].name.Some?
      ensures all[k].name.Some?
      ensures j < k ==> IsShorter(all[k].name.value, all[j].name.value)
      ensures j != k ==> !IsShorter(all[j].name.value, all[k].name.value)
    {
      if j < |takes| {
        assert all[j] == takes[j];
      }
    }
  }

  lemma PickMoves(takes: seq<Take>, take: Take)
    requires take.name.Some?
    requires forall j | 0 <= j < |takes| && takes[j].name.Some? :: IsShorter(take.name.value, takes[j].name.value)
    ensures HasShortest(takes + [take], |takes|)
  {
    forall j | 0 <= j < |takes| && takes[j].name.Some? ensures !IsShorter(takes[j].name.value, take.name.value) {
      ShorterThan(take.name.value, takes[j].name.value, take.name.value);
    }
  }

  lemma TakeAdds(env: Env, origin: Text -> Origin, w: World, op: Op, content: Source, takes: seq<Take>)
    requires env.NoCollisions() && Inv(env, origin, w) && Respects(env, origin, op) && IsTakeOf(env, op, content)
    requires HoldsTakes(env, w, content, takes)
    ensures HoldsTakes(env, Step(env, w, op), content, takes + [Take(op.e.name, op.e.original, op.rendered.value)])
  {
    var hash := env.hash(content);
    var id, take := env.idOf(hash), Take(op.e.name, op.e.original, op.rendered.value);
    assert IsHashEntry(env, origin, w, hash);
    assert (takes + [take])[..|takes|] == takes;
    var k: nat :| HasShortest(takes, k) && w.store.files[id].fileName == takes[k].rendered;
    if op.e.name.Some? {
      RepicksIff(takes, op.e.name.value);
    }
    if RepicksName(w.store, id, op.e) {
      PickMoves(takes, take);
    } else {
      PickStays(takes, k, take);
    }
  }

  lemma FirstTake(env: Env, origin: Text -> Origin, w: World, op: Op, content: Source)
    requires env.NoCollisions() && Inv(env, origin, w) && Respects(env, origin, op) && IsTakeOf(env, op, content)
    requires env.hash(content) !in w.store.idOfHash && w.store.building
    ensures HoldsTakes(env, Step(env, w, op), content, [Take(op.e.name, op.e.original, op.rendered.value)])
  {
    var hash := env.hash(content);
    var id, takes := env.idOf(hash), [Take(op.e.name, op.e.original, op.rendered.value)];
    SeedsStayApart(env, origin, w, id, hash);
    assert id !in w.store.files && id !in w.store.emitted;
    assert takes[..0] == [] && [] + Listed(op.e.name) == Listed(op.e.name);
    assert [] + Listed(op.e.original) == Listed(op.e.original);
    assert HasShortest(takes, 0);
  }

  lemma OtherStep(env: Env, origin: Text -> Origin, w: World, op: Op, content: Source)
    requires env.NoCollisions() && Inv(env, origin, w) && Respects(env, origin, op) && !IsTakeOf(env, op, content)
    requires origin(env.hash(content)) == ContentHash
    requires !op.Flush? && !op.Reset? && !op.EnterOutput?
    requires op.EmitAsset? && op.e.fileName.None? ==> op.rendered.Some?
    ensures SameEntry(env, w, Step(env, w, op), content)
  {
    if op.EmitAsset? {
      OtherEmission(env, origin, w, op.e, op.rendered, content);
    }
  }

  /** Nothing that belongs to the content has changed. */
  ghost predicate SameEntry(env: Env, w: World, next: World, content: Source) {
    var hash := env.hash(content);
    && (w.store.building ==> next.store.building) && (hash in next.store.idOfHash <==> hash in w.store.idOfHash)
    && Same(w, next, env.idOf(hash))
  }

  lemma SameEntryHolds(env: Env, w: World, next: World, content: Source, takes: seq<Take>)
    requires SameEntry(env, w, next, content) && HoldsTakes(env, w, content, takes)
    ensures HoldsTakes(env, next, content, takes)
  {
    var k: nat :| HasShortest(takes, k) && w.store.files[env.idOf(env.hash(content))].fileName == takes[k].rendered;
  }

  lemma OtherEmission(env: Env, origin: Text -> Origin, w: World, e: Emission, rendered: Option<Text>, content: Source)
    requires env.NoCollisions() && Inv(env, origin, w) && Respects(env, origin, EmitAsset(e, rendered))
    requires origin(env.hash(content)) == ContentHash && !IsTakeOf(env, EmitAsset(e, rendered), content)
    requires e.fileName.None? ==> rendered.Some?
    ensures SameEntry(env, w, AfterEmission(env, w, e, rendered), content)
  {
    if Emitted(env, w.store, e, rendered).1.Success? {
      EntriesAreKnown(env, origin, w);
      EmissionTouchesOne(env, w, e, rendered);
      assert SeedOf(env, e) != env.hash(content);
      EmissionKeepsPhase(env, w.store, e, rendered);
    }
  }

  lemma EmissionKeepsPhase(env: Env, s: Store, e: Emission, rendered: Option<Text>)
    ensures Emitted(env, s, e, rendered).0.building == s.building
  {
  }

  lemma RunStep(env: Env, w: World, ops: seq<Op>)
    requires ops != []
    ensures Run(env, w, ops) == Step(env, Run(env, w, ops[..|ops| - 1]), ops[|ops| - 1])
  {
    var n := |ops| - 1;
    assert ops == ops[..n] + [ops[n]];
    RunAppend(env, w, ops[..n], [ops[n]]);
    assert [ops[n]][1..] == [];
  }

  /** Over any run in the build phase, beginning where a content is not known yet and without a flush: the asset
      of the content has all names it was emitted with, and its file name is the one given for its shortest
      name, ties broken by byte order and then by coming first. */
  lemma {:induction false} ShortestNameWins(
      env: Env, origin: Text -> Origin, before: seq<Op>, ops: seq<Op>, content: Source)
    requires env.NoCollisions() && (forall op | op in before + ops :: Respects(env, origin, op))
    requires forall op | op in ops ::
      !op.Flush? && !op.Reset? && !op.EnterOutput? && (op.EmitAsset? && op.e.fileName.None? ==> op.rendered.Some?)
    requires var w := Run(env, START, before).store; w.building && env.hash(content) !in w.idOfHash
    requires origin(env.hash(content)) == ContentHash
    ensures var w, takes := Run(env, Run(env, START, before), ops), TakesOf(env, ops, content);
      && w.store.building && Inv(env, origin, w)
      && if takes == [] then env.hash(content) !in w.store.idOfHash else HoldsTakes(env, w, content, takes)
    decreases |ops|
  {
    var start := Run(env, START, before);
    if ops == [] {
      assert before + ops == before;
      RunKeepsInv(env, origin, START, before);
    } else {
      var n := |ops| - 1;
      var front := ops[..n];
      assert forall op | op in before + front :: op in before + ops;
      assert ops[n] in ops && ops[n] in before + ops;
      ShortestNameWins(env, origin, before, front, content);
      RunStep(env, start, ops);
      var w, takes := Run(env, start, front), TakesOf(env, front, content);
      StepKeepsInv(env, origin, w, ops[n]);
      if IsTakeOf(env, ops[n], content) {
        if takes == [] {
          FirstTake(env, origin, w, ops[n], content);
          assert [] + [Take(ops[n].e.name, ops[n].e.original, ops[n].rendered.value)] == TakesOf(env, ops, content);
        } else {
          TakeAdds(env, origin, w, ops[n], content, takes);
        }
      } else {
        OtherStep(env, origin, w, ops[n], content);
        if takes != [] {
          SameEntryHolds(env, w, Step(env, w, ops[n]), content, takes);
        }
        assert takes + [] == takes;
      }
    }
  }
}
