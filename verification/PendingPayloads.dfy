/** The dev context's shared maps, one method per entry point, one lock section per step. */
module PendingPayloads {
  import opened PatchIds
  import opened Sorting
  import opened Strings
  import opened Sets

  datatype ClientId = ClientId(text: string)
  datatype ModuleId = ModuleId(text: string)
  datatype FileName = FileName(text: string)

  const MAX_PENDING_PAYLOADS_PER_CLIENT: nat := 8

  /** A rendered payload: the modules it carries with their render stamps. */
  datatype Payload = Payload(clientId: ClientId, modules: seq<(ModuleId, nat)>)

  type ShipMap = map<ModuleId, nat>

  datatype Session = Session(shipped: ShipMap, topLevelEvaluated: ShipMap, nextSeq: nat)

  type Pending = map<FileName, Payload>

  type Clients = map<ClientId, Session>

  /** The dev context's maps as one value. */
  datatype Shared = Shared(clients: Clients, pending: Pending, topLevelEvaluated: ShipMap)

  datatype HmrUpdate = Patch(filename: FileName, carried: seq<(ModuleId, nat)>, number: nat) | FullReload | Noop

  /** One entry of a push: what the bundler computed for one client. */
  datatype ClientUpdate = ClientUpdate(client: ClientId, update: HmrUpdate)
  {
    predicate IsPatchFor(id: ClientId) {
      update.Patch? && client == id
    }

    function CarriedPayload(): Payload
      requires update.Patch?
    {
      Payload(client, update.carried)
    }

    /** As the callback gets it: the stamps stay on the server. */
    function Stripped(): ClientUpdate {
      if update.Patch? then ClientUpdate(client, update.(carried := [])) else this
    }
  }

  function Max(a: nat, b: nat): nat {
    if a < b then b else a
  }

  function MergeOne(shipped: ShipMap, id: ModuleId, stamp: nat): ShipMap {
    shipped[id := if id in shipped then Max(shipped[id], stamp) else stamp]
  }

  /** Max-merge a payload's stamps, in order. */
  function Merge(shipped: ShipMap, modules: seq<(ModuleId, nat)>): ShipMap {
    if modules == [] then shipped
    else
      var last := modules[|modules| - 1];
      MergeOne(Merge(shipped, modules[..|modules| - 1]), last.0, last.1)
  }

  function OfClient(pending: Pending, client: ClientId): set<FileName> {
    set f | f in pending && pending[f].clientId == client
  }

  function Without(pending: Pending, client: ClientId): Pending {
    map f | f in pending && pending[f].clientId != client :: pending[f]
  }

  function AtMostBound(n: nat): nat {
    if n <= MAX_PENDING_PAYLOADS_PER_CLIENT then n else MAX_PENDING_PAYLOADS_PER_CLIENT
  }

  ghost predicate DropsOnlyOlder(names: set<FileName>, kept: set<FileName>) {
    forall f, g | f in names && f !in kept && g in kept :: Older(f, g)
  }

  predicate Older(f: FileName, g: FileName) {
    OlderOrSame(f, g) && !OlderOrSame(g, f)
  }

  /** `after` is `before` with, for `client`, only its newest entries. */
  ghost predicate KeepsNewest(before: Pending, after: Pending, client: ClientId) {
    && (forall f | f in after :: f in before && after[f] == before[f])
    && (forall f | f in before && before[f].clientId != client :: f in after)
    && |OfClient(after, client)| == AtMostBound(|OfClient(before, client)|)
    && DropsOnlyOlder(OfClient(before, client), OfClient(after, client))
  }

  function IdOf(f: FileName): nat {
    PatchIdOf(f.text)
  }

  /** Older entries first: by id, ties broken by name. */
  predicate OlderOrSame(a: FileName, b: FileName) {
    IdOf(a) < IdOf(b) || (IdOf(a) == IdOf(b) && StringLe(a.text, b.text))
  }

  lemma OlderIsTotalPreorder()
    ensures TotalPreorder(OlderOrSame)
  {
    forall x, y ensures OlderOrSame(x, y) || OlderOrSame(y, x) {
      StringLeTotal(x.text, y.text);
    }
    forall x, y, z | OlderOrSame(x, y) && OlderOrSame(y, z) ensures OlderOrSame(x, z) {
      if StringLe(x.text, y.text) && StringLe(y.text, z.text) {
        StringLeTransitive(x.text, y.text, z.text);
      }
    }
  }

  lemma OlderIsAntisymmetric(a: FileName, b: FileName)
    requires OlderOrSame(a, b) && OlderOrSame(b, a)
    ensures a == b
  {
    StringLeAntisymmetric(a.text, b.text);
  }

  // ---- Newest, by the numbers in the names ------------------------------------------------

  /** `g` has the higher patch id, or the same one and the later name. */
  ghost predicate IsLater(g: FileName, f: FileName) {
    PatchIdOf(g.text) > PatchIdOf(f.text) || (PatchIdOf(g.text) == PatchIdOf(f.text) && ComesBefore(f.text, g.text))
  }

  ghost function Later(names: set<FileName>, f: FileName): set<FileName> {
    set g | g in names && IsLater(g, f)
  }

  /** The eight entries with the highest patch ids. */
  ghost predicate KeepsHighest(names: set<FileName>, kept: set<FileName>) {
    forall f | f in names :: f in kept <==> |Later(names, f)| < 8
  }

  lemma OlderIffLater(f: FileName, g: FileName)
    ensures Older(f, g) <==> IsLater(g, f)
  {
    StringLeIff(f.text, g.text);
    StringLeIff(g.text, f.text);
    if StringLe(f.text, g.text) && StringLe(g.text, f.text) {
      StringLeAntisymmetric(f.text, g.text);
    }
    if ComesBefore(f.text, g.text) {
      var k: nat :| DifferAt(f.text, g.text, k);
      BeforeIsLess(f.text, g.text, k);
    }
  }

  lemma LaterThanKept(names: set<FileName>, kept: set<FileName>, f: FileName)
    requires kept <= names && DropsOnlyOlder(names, kept) && f in kept
    ensures |Later(names, f)| < |kept|
  {
    forall g | g in Later(names, f) ensures g in kept - {f} {
      OlderIffLater(f, g);
      OlderIffLater(g, f);
    }
    SubsetCard(Later(names, f), kept - {f});
  }

  lemma LaterThanDropped(names: set<FileName>, kept: set<FileName>, f: FileName)
    requires kept <= names && DropsOnlyOlder(names, kept) && f in names && f !in kept
    ensures |Later(names, f)| >= |kept|
  {
    forall g | g in kept ensures g in Later(names, f) {
      OlderIffLater(f, g);
    }
    SubsetCard(kept, Later(names, f));
  }

  lemma NewestAreHighest(names: set<FileName>, kept: set<FileName>)
    requires kept <= names && |kept| == AtMostBound(|names|) && DropsOnlyOlder(names, kept)
    ensures KeepsHighest(names, kept)
  {
    forall f | f in names ensures f in kept <==> |Later(names, f)| < 8 {
      if f in kept {
        LaterThanKept(names, kept, f);
      } else {
        LaterThanDropped(names, kept, f);
        SubsetCard(kept + {f}, names);
      }
    }
  }

  /** Of the client's entries, exactly those are kept that fewer than eight others come after. */
  lemma KeptAreHighest(before: Pending, after: Pending, client: ClientId)
    requires KeepsNewest(before, after, client)
    ensures KeepsHighest(OfClient(before, client), OfClient(after, client))
  {
    NewestAreHighest(OfClient(before, client), OfClient(after, client));
  }

  /** A payload whose name is made from an id above all pending ones of its client stays, and
      whatever is dropped has a lower id than everything that stays, or the same id. */
  lemma NewPayloadIsKept(before: Pending, id: nat, f: FileName, payload: Payload, after: Pending)
    requires id <= 0xFFFF_FFFF && (f.text == HmrPatchName(id) || f.text == LazyCompileName(id))
    requires forall g | g in OfClient(before, payload.clientId) && g != f :: PatchIdOf(g.text) < id
    requires KeepsNewest(before[f := payload], after, payload.clientId)
    ensures f in after && after[f] == payload
    ensures forall g, h | g in OfClient(before[f := payload], payload.clientId) && g !in after
                && h in OfClient(after, payload.clientId) :: PatchIdOf(g.text) <= PatchIdOf(h.text)
  {
    var names := OfClient(before[f := payload], payload.clientId);
    PatchIdOfBothKinds(id);
    KeptAreHighest(before[f := payload], after, payload.clientId);
    assert Later(names, f) == {} by {
      NotBeforeItself(f.text);
    }
    forall g, h | g in names && g !in after && h in OfClient(after, payload.clientId)
      ensures PatchIdOf(g.text) <= PatchIdOf(h.text)
    {
      OlderIffLater(g, h);
    }
  }

  /** Of two maps that keep the newest entries, one keeps all that the other keeps. */
  lemma KeptAreComparable(before: Pending, one: Pending, two: Pending, client: ClientId)
    requires KeepsNewest(before, one, client) && KeepsNewest(before, two, client)
    ensures OfClient(one, client) <= OfClient(two, client) || OfClient(two, client) <= OfClient(one, client)
  {
    if f :| f in OfClient(one, client) && f !in OfClient(two, client) {
      forall g | g in OfClient(two, client) ensures g in OfClient(one, client) {
        assert f in OfClient(before, client) && g in OfClient(before, client);
        assert Older(f, g);
      }
    }
  }

  /** What an insertion keeps is determined by the map alone, not by any iteration order. */
  lemma KeptEntriesAreUnique(before: Pending, one: Pending, two: Pending, client: ClientId)
    requires KeepsNewest(before, one, client) && KeepsNewest(before, two, client)
    ensures one == two
  {
    var a, b := OfClient(one, client), OfClient(two, client);
    KeptAreComparable(before, one, two, client);
    EqualCardSubset(a, b);
    EqualCardSubset(b, a);
    forall f ensures f in one <==> f in two {
      if f in before && before[f].clientId == client {
        assert f in one <==> f in a;
        assert f in two <==> f in b;
      }
    }
    assert one.Keys == two.Keys;
  }

  lemma EqualCardSubset<T>(a: set<T>, b: set<T>)
    requires |a| == |b|
    ensures a <= b ==> a == b
  {
    if a <= b {
      forall x | x in b ensures x in a {
        if x !in a {
          SubsetCard(a, b - {x});
        }
      }
    }
  }

  ghost function Elements(names: seq<FileName>): set<FileName> {
    set f | f in names
  }

  lemma RemoveLast(names: seq<FileName>, s: set<FileName>)
    requires names != [] && multiset(names) == multiset(s)
    ensures names[|names| - 1] in s
    ensures multiset(names[..|names| - 1]) == multiset(s - {names[|names| - 1]})
  {
    var n := |names| - 1;
    assert names == names[..n] + [names[n]];
    assert names[n] in multiset(s);
    assert multiset(names[..n]) == multiset(names) - multiset{names[n]};
  }

  lemma {:induction false} SetAsSequence(names: seq<FileName>, s: set<FileName>)
    requires multiset(names) == multiset(s)
    ensures Elements(names) == s
    ensures forall i, j | 0 <= i < j < |names| :: names[i] != names[j]
  {
    if names == [] {
      assert |multiset(s)| == 0;
    } else {
      var n := |names| - 1;
      RemoveLast(names, s);
      SetAsSequence(names[..n], s - {names[n]});
      assert forall i | 0 <= i < n :: names[i] == names[..n][i] && names[i] in Elements(names[..n]);
      assert names == names[..n] + [names[n]];
      assert Elements(names) == Elements(names[..n]) + {names[n]};
    }
  }

  lemma {:induction false} DistinctSuffixCard(names: seq<FileName>, k: nat)
    requires k <= |names| && forall i, j | 0 <= i < j < |names| :: names[i] != names[j]
    ensures |Elements(names[k..])| == |names| - k
    decreases |names| - k
  {
    if k < |names| {
      DistinctSuffixCard(names, k + 1);
      assert names[k] !in names[k + 1..];
      ElementsInFront(names[k], names[k + 1..]);
      assert names[k..] == [names[k]] + names[k + 1..];
    }
  }

  lemma ElementsInFront(name: FileName, names: seq<FileName>)
    requires name !in names
    ensures |Elements([name] + names)| == 1 + |Elements(names)|
  {
    assert Elements([name] + names) == {name} + Elements(names);
    assert name !in Elements(names);
  }

  lemma SplitElements(names: seq<FileName>, k: nat)
    requires k <= |names| && forall i, j | 0 <= i < j < |names| :: names[i] != names[j]
    ensures Elements(names) == Elements(names[..k]) + Elements(names[k..])
    ensures Elements(names[..k]) !! Elements(names[k..])
  {
    assert names == names[..k] + names[k..];
    forall f | f in Elements(names[k..]) ensures f !in Elements(names[..k]) {
      var i :| k <= i < |names| && names[i] == f;
      assert forall j | 0 <= j < k :: names[..k][j] == names[j] != f;
    }
  }

  lemma EarlierIsOlder(sorted: seq<FileName>, k: nat, f: FileName, g: FileName)
    requires SortedBy(OlderOrSame, sorted) && k <= |sorted|
    requires forall i, j | 0 <= i < j < |sorted| :: sorted[i] != sorted[j]
    requires f in sorted[..k] && g in sorted[k..]
    ensures Older(f, g)
  {
    var i :| 0 <= i < k && sorted[i] == f;
    var j :| k <= j < |sorted| && sorted[j] == g;
    if OlderOrSame(g, f) {
      OlderIsAntisymmetric(f, g);
    }
  }

  lemma SuffixIsNewest(names: set<FileName>, sorted: seq<FileName>, k: nat)
    requires multiset(sorted) == multiset(names) && SortedBy(OlderOrSame, sorted) && k <= |sorted|
    ensures Elements(sorted[..k]) + Elements(sorted[k..]) == names && Elements(sorted[..k]) !! Elements(sorted[k..])
    ensures |Elements(sorted[k..])| == |sorted| - k && DropsOnlyOlder(names, Elements(sorted[k..]))
  {
    SetAsSequence(sorted, names);
    SplitElements(sorted, k);
    DistinctSuffixCard(sorted, k);
    forall f, g | f in names && f !in Elements(sorted[k..]) && g in Elements(sorted[k..]) ensures Older(f, g) {
      EarlierIsOlder(sorted, k, f, g);
    }
  }

  lemma WithoutDropped(before: Pending, client: ClientId, dropped: set<FileName>)
    requires dropped <= OfClient(before, client)
    ensures OfClient(before - dropped, client) == OfClient(before, client) - dropped
    ensures forall f | f in before && before[f].clientId != client :: f in before - dropped
  {
  }

  /** Dropping all but the last eight entries of the sorted list keeps the newest. */
  lemma DroppingKeepsNewest(before: Pending, client: ClientId, sorted: seq<FileName>, k: nat)
    requires multiset(sorted) == multiset(OfClient(before, client)) && SortedBy(OlderOrSame, sorted)
    requires k + MAX_PENDING_PAYLOADS_PER_CLIENT == |sorted|
    ensures KeepsNewest(before, before - Elements(sorted[..k]), client)
  {
    var names, dropped, kept := OfClient(before, client), Elements(sorted[..k]), Elements(sorted[k..]);
    SuffixIsNewest(names, sorted, k);
    WithoutDropped(before, client, dropped);
    assert names - dropped == kept;
    assert |names| == |multiset(names)| == |sorted|;
  }

  /** The client's file names, in whatever order the map yields them. */
  method EntriesOf(pending: Pending, client: ClientId) returns (entries: seq<FileName>)
    ensures multiset(entries) == multiset(OfClient(pending, client))
  {
    var rest := pending.Keys;
    entries := [];
    while rest != {}
      invariant rest <= pending.Keys
      invariant multiset(entries) == multiset(OfClient(pending, client) - rest)
      decreases rest
    {
      var f :| f in rest;
      var others := OfClient(pending, client);
      if pending[f].clientId == client {
        assert others - (rest - {f}) == (others - rest) + {f};
        entries := entries + [f];
      } else {
        assert others - (rest - {f}) == others - rest;
      }
      rest := rest - {f};
    }
    assert OfClient(pending, client) - {} == OfClient(pending, client);
  }

  method DropOldest(before: Pending, client: ClientId, entries: seq<FileName>) returns (pending: Pending)
    requires multiset(entries) == multiset(OfClient(before, client))
    requires |entries| > MAX_PENDING_PAYLOADS_PER_CLIENT
    ensures KeepsNewest(before, pending, client)
  {
    var sorted := Sort(OlderOrSame, entries);
    OlderIsTotalPreorder();
    SortIsSorted(OlderOrSame, entries);
    var k := |sorted| - MAX_PENDING_PAYLOADS_PER_CLIENT;
    pending := before;
    for i := 0 to k
      invariant pending == before - Elements(sorted[..i])
    {
      assert sorted[..i + 1] == sorted[..i] + [sorted[i]];
      assert Elements(sorted[..i + 1]) == Elements(sorted[..i]) + {sorted[i]};
      pending := pending - {sorted[i]};
    }
    DroppingKeepsNewest(before, client, sorted, k);
  }

  class DevContext {
    var clients: Clients
    var pendingPayloads: Pending
    var topLevelEvaluated: ShipMap

    function View(): Shared
      reads this
    {
      Shared(clients, pendingPayloads, topLevelEvaluated)
    }

    constructor ()
      ensures View() == Shared(map[], map[], map[])
    {
      clients, pendingPayloads, topLevelEvaluated := map[], map[], map[];
    }

    /** Record a rendered payload, then drop the client's oldest entries beyond the bound. */
    method InsertPendingPayload(filename: FileName, payload: Payload)
      modifies `pendingPayloads
      ensures KeepsNewest(old(pendingPayloads)[filename := payload], pendingPayloads, payload.clientId)
      ensures |OfClient(pendingPayloads, payload.clientId)| <= 8
      ensures KeepsHighest(OfClient(old(pendingPayloads)[filename := payload], payload.clientId),
                           OfClient(pendingPayloads, payload.clientId))
    {
      var pending := pendingPayloads[filename := payload];
      var clientId := payload.clientId;
      var entries := EntriesOf(pending, clientId);
      assert |entries| == |multiset(OfClient(pending, clientId))|;
      if |entries| > MAX_PENDING_PAYLOADS_PER_CLIENT {
        pending := DropOldest(pending, clientId, entries);
      }
      pendingPayloads := pending;
      KeptAreHighest(old(pendingPayloads)[filename := payload], pendingPayloads, clientId);
    }

    method RegisterClient(client: ClientId)
      modifies `clients
      ensures View() == Registered(old(View()), client)
    {
      var snapshot := topLevelEvaluated;
      if client !in clients {
        clients := clients[client := Session(map[], snapshot, 0)];
      }
    }

    method RemoveClient(client: ClientId)
      modifies `clients, `pendingPayloads
      ensures View() == Removed(old(View()), client)
      ensures client !in clients && forall f | f in pendingPayloads :: pendingPayloads[f].clientId != client
      ensures forall c | c in old(clients) && c != client :: c in clients && clients[c] == old(clients)[c]
      ensures forall f | f in old(pendingPayloads) && old(pendingPayloads)[f].clientId != client ::
        f in pendingPayloads && pendingPayloads[f] == old(pendingPayloads)[f]
    {
      clients := clients - {client};
      pendingPayloads := map f | f in pendingPayloads && pendingPayloads[f].clientId != client :: pendingPayloads[f];
    }

    /** Consume the pending entry, then max-merge its stamps into the session. */
    method NotifyPayloadDelivered(filename: FileName)
      modifies `clients, `pendingPayloads
      ensures View() == Notified(old(View()), filename)
    {
      if filename !in pendingPayloads {
        return;
      }
      var pending := pendingPayloads[filename];
      pendingPayloads := pendingPayloads - {filename};
      if pending.clientId !in clients {
        return;
      }
      var session := clients[pending.clientId];
      var shipped := session.shipped;
      for i := 0 to |pending.modules|
        invariant shipped == Merge(session.shipped, pending.modules[..i])
      {
        assert pending.modules[..i + 1][..i] == pending.modules[..i];
        var (id, stamp) := pending.modules[i];
        shipped := shipped[id := if id in shipped then Max(shipped[id], stamp) else stamp];
      }
      assert pending.modules[..|pending.modules|] == pending.modules;
      clients := clients[pending.clientId := session.(shipped := shipped)];
    }

    /** Number the patches of one push. A patch whose client is gone keeps the number it has. */
    method AssignSeqs(updates: seq<ClientUpdate>) returns (numbered: seq<ClientUpdate>)
      modifies `clients
      ensures IsNumbering(old(clients), updates, clients, numbered)
    {
      numbered := [];
      for i := 0 to |updates|
        invariant (clients, numbered) == Assigned(old(clients), updates[..i])
      {
        assert updates[..i + 1][..i] == updates[..i];
        var u := updates[i];
        if u.update.Patch? {
          if u.client in clients {
            var session := clients[u.client];
            clients := clients[u.client := session.(nextSeq := session.nextSeq + 1)];
            u := u.(update := u.update.(number := session.nextSeq + 1));
          }
        }
        numbered := numbered + [u];
      }
      assert updates[..|updates|] == updates;
      AssignedIsNumbering(old(clients), updates);
    }

    /** Record the payloads of one push, and hand out its updates without them. */
    method RecordPatches(updates: seq<ClientUpdate>) returns (sent: seq<ClientUpdate>)
      modifies `pendingPayloads
      ensures RecordsInTurn(old(pendingPayloads), updates, pendingPayloads)
      ensures |sent| == |updates| && forall i | 0 <= i < |sent| :: sent[i] == updates[i].Stripped()
    {
      sent := [];
      for i := 0 to |updates|
        invariant RecordsInTurn(old(pendingPayloads), updates[..i], pendingPayloads)
        invariant |sent| == i && forall j | 0 <= j < i :: sent[j] == updates[j].Stripped()
      {
        ghost var before := pendingPayloads;
        if updates[i].update.Patch? {
          InsertPendingPayload(updates[i].update.filename, updates[i].CarriedPayload());
        }
        sent := sent + [updates[i].Stripped()];
        OneMoreRecord(old(pendingPayloads), updates, i, before, pendingPayloads);
      }
      assert updates[..|updates|] == updates;
    }
  }

  // ---- What the entry points do to the maps -----------------------------------------------

  function Registered(s: Shared, client: ClientId): Shared {
    if client in s.clients then s
    else s.(clients := s.clients[client := Session(map[], s.topLevelEvaluated, 0)])
  }

  function Removed(s: Shared, client: ClientId): Shared {
    s.(clients := s.clients - {client}, pending := Without(s.pending, client))
  }

  function Notified(s: Shared, filename: FileName): Shared {
    if filename !in s.pending then s
    else s.(clients := Delivered(s.clients, s.pending[filename]), pending := s.pending - {filename})
  }

  function Delivered(clients: Clients, payload: Payload): Clients {
    if payload.clientId in clients then
      var session := clients[payload.clientId];
      clients[payload.clientId := session.(shipped := Merge(session.shipped, payload.modules))]
    else clients
  }

  // ---- Numbering a push -------------------------------------------------------------------

  function Assigned(clients: Clients, updates: seq<ClientUpdate>): (Clients, seq<ClientUpdate>) {
    if updates == [] then (clients, [])
    else
      var (before, numbered) := Assigned(clients, updates[..|updates| - 1]);
      var u := updates[|updates| - 1];
      if u.update.Patch? && u.client in before then
        var session := before[u.client];
        (before[u.client := session.(nextSeq := session.nextSeq + 1)],
         numbered + [u.(update := u.update.(number := session.nextSeq + 1))])
      else (before, numbered + [u])
  }

  function PatchCount(updates: seq<ClientUpdate>, client: ClientId): nat {
    if updates == [] then 0
    else
      var rest := PatchCount(updates[..|updates| - 1], client);
      if updates[|updates| - 1].IsPatchFor(client) then rest + 1 else rest
  }

  /** The `i`-th update of a push: the patches of a connected client continue its count. */
  function WithNumber(clients: Clients, updates: seq<ClientUpdate>, i: nat): ClientUpdate
    requires i < |updates|
  {
    var u := updates[i];
    if u.update.Patch? && u.client in clients then
      u.(update := u.update.(number := clients[u.client].nextSeq + PatchCount(updates[..i + 1], u.client)))
    else u
  }

  /** Every connected client's counter moves by the number of its patches, and these carry the
      numbers in between, in order. */
  ghost predicate IsNumbering(before: Clients, updates: seq<ClientUpdate>, after: Clients, numbered: seq<ClientUpdate>)
  {
    CountersMove(before, updates, after) && CarryNumbers(before, updates, numbered)
  }

  ghost predicate CountersMove(before: Clients, updates: seq<ClientUpdate>, after: Clients) {
    && after.Keys == before.Keys
    && forall c | c in before :: after[c] == before[c].(nextSeq := before[c].nextSeq + PatchCount(updates, c))
  }

  ghost predicate CarryNumbers(before: Clients, updates: seq<ClientUpdate>, numbered: seq<ClientUpdate>) {
    |numbered| == |updates| && forall i | 0 <= i < |updates| :: numbered[i] == WithNumber(before, updates, i)
  }

  lemma {:induction false} AssignedMovesCounters(clients: Clients, updates: seq<ClientUpdate>)
    ensures CountersMove(clients, updates, Assigned(clients, updates).0)
  {
    if updates != [] {
      AssignedMovesCounters(clients, updates[..|updates| - 1]);
    }
  }

  lemma FrontNumbers(clients: Clients, updates: seq<ClientUpdate>, i: nat)
    requires i < |updates| - 1
    ensures WithNumber(clients, updates, i) == WithNumber(clients, updates[..|updates| - 1], i)
  {
    assert updates[..|updates| - 1][..i + 1] == updates[..i + 1];
  }

  lemma LastNumber(clients: Clients, updates: seq<ClientUpdate>, before: Clients, last: ClientUpdate)
    requires updates != [] && CountersMove(clients, updates[..|updates| - 1], before)
    requires var u := updates[|updates| - 1];
      last == if u.update.Patch? && u.client in before
              then u.(update := u.update.(number := before[u.client].nextSeq + 1)) else u
    ensures last == WithNumber(clients, updates, |updates| - 1)
  {
    assert updates[..|updates|] == updates;
  }

  lemma {:induction false} AssignedCarriesNumbers(clients: Clients, updates: seq<ClientUpdate>)
    ensures CarryNumbers(clients, updates, Assigned(clients, updates).1)
  {
    if updates != [] {
      var n := |updates| - 1;
      var (before, front) := Assigned(clients, updates[..n]);
      var numbered := Assigned(clients, updates).1;
      AssignedCarriesNumbers(clients, updates[..n]);
      AssignedMovesCounters(clients, updates[..n]);
      assert |numbered| == n + 1 && numbered[..n] == front;
      LastNumber(clients, updates, before, numbered[n]);
      forall i: nat | i < n ensures numbered[i] == WithNumber(clients, updates, i) {
        FrontNumbers(clients, updates, i);
        assert numbered[i] == front[i];
      }
    }
  }

  lemma AssignedIsNumbering(clients: Clients, updates: seq<ClientUpdate>)
    ensures IsNumbering(clients, updates, Assigned(clients, updates).0, Assigned(clients, updates).1)
  {
    AssignedMovesCounters(clients, updates);
    AssignedCarriesNumbers(clients, updates);
  }

  // ---- Recording a push -------------------------------------------------------------------

  ghost predicate Records(before: Pending, u: ClientUpdate, after: Pending) {
    if u.update.Patch? then KeepsNewest(before[u.update.filename := u.CarriedPayload()], after, u.client)
    else after == before
  }

  /** One insertion after the other, each with its own eviction. */
  ghost predicate RecordsInTurn(before: Pending, updates: seq<ClientUpdate>, after: Pending) {
    if updates == [] then after == before
    else
      exists middle {:trigger Records(middle, updates[|updates| - 1], after)} ::
        RecordsInTurn(before, updates[..|updates| - 1], middle) && Records(middle, updates[|updates| - 1], after)
  }

  lemma OneMoreRecord(before: Pending, updates: seq<ClientUpdate>, i: nat, middle: Pending, after: Pending)
    requires i < |updates| && RecordsInTurn(before, updates[..i], middle) && Records(middle, updates[i], after)
    ensures RecordsInTurn(before, updates[..i + 1], after)
  {
    assert updates[..i + 1][..i] == updates[..i];
  }

  /** All the push's payloads beside the pending ones, before any eviction. */
  function WithPayloads(pending: Pending, updates: seq<ClientUpdate>): Pending {
    if updates == [] then pending
    else
      var rest := WithPayloads(pending, updates[..|updates| - 1]);
      var u := updates[|updates| - 1];
      if u.update.Patch? then rest[u.update.filename := u.CarriedPayload()] else rest
  }

  /** The patches of a push have names of their own: each is made from an id drawn for it alone. */
  ghost predicate NamesAreFresh(pending: Pending, updates: seq<ClientUpdate>) {
    && (forall i | 0 <= i < |updates| && updates[i].update.Patch? :: updates[i].update.filename !in pending)
    && forall i, j | 0 <= i < j < |updates| && updates[i].update.Patch? && updates[j].update.Patch? ::
         updates[i].update.filename != updates[j].update.filename
  }

  ghost predicate WithinBound(pending: Pending) {
    forall c :: |OfClient(pending, c)| <= MAX_PENDING_PAYLOADS_PER_CLIENT
  }

  ghost predicate KeepsNewestOfAll(before: Pending, after: Pending) {
    && (forall f | f in after :: f in before && after[f] == before[f])
    && forall c {:trigger KeepsNewestOf(before, after, c)} :: KeepsNewestOf(before, after, c)
  }

  ghost predicate KeepsNewestOf(before: Pending, after: Pending, c: ClientId) {
    && |OfClient(after, c)| == AtMostBound(|OfClient(before, c)|)
    && DropsOnlyOlder(OfClient(before, c), OfClient(after, c))
  }

  lemma OlderIsTransitive(f: FileName, g: FileName, h: FileName)
    requires Older(f, g) && Older(g, h)
    ensures Older(f, h)
  {
    OlderIsTotalPreorder();
  }

  /** The newest of the newest and one more are the newest of all. */
  lemma NewestOfNewest(names: set<FileName>, kept: set<FileName>, f: FileName, next: set<FileName>)
    requires kept <= names && f !in names && next <= kept + {f}
    requires |kept| == AtMostBound(|names|) && DropsOnlyOlder(names, kept)
    requires |next| == AtMostBound(|kept + {f}|) && DropsOnlyOlder(kept + {f}, next)
    ensures |next| == AtMostBound(|names + {f}|) && DropsOnlyOlder(names + {f}, next)
  {
    forall g, h | g in names + {f} && g !in next && h in next ensures Older(g, h) {
      if g !in kept + {f} && h == f {
        var x := DroppedOne(names, kept, f, next);
        OlderIsTransitive(g, x, f);
      }
    }
  }

  lemma DroppedOne(names: set<FileName>, kept: set<FileName>, f: FileName, next: set<FileName>) returns (x: FileName)
    requires kept <= names && kept != names && f !in names && f in next && next <= kept + {f}
    requires |kept| == AtMostBound(|names|) && |next| == AtMostBound(|kept + {f}|)
    ensures x in kept && x !in next
  {
    if |kept| == |names| {
      EqualCardSubset(kept, names);
    }
    assert |kept + {f}| == MAX_PENDING_PAYLOADS_PER_CLIENT + 1;
    if kept <= next {
      SubsetCard(kept + {f}, next);
    }
    x :| x in kept && x !in next;
  }

  lemma InsertedNames(pending: Pending, f: FileName, payload: Payload, c: ClientId)
    requires f !in pending
    ensures OfClient(pending[f := payload], c) == OfClient(pending, c) + if payload.clientId == c then {f} else {}
    ensures f !in OfClient(pending, c)
  {
  }

  lemma KeepsNewestDropsOlder(before: Pending, after: Pending, c: ClientId)
    requires KeepsNewest(before, after, c)
    ensures OfClient(after, c) <= OfClient(before, c) && KeepsNewestOf(before, after, c)
  {
  }

  lemma KeepsOthers(before: Pending, after: Pending, client: ClientId, c: ClientId)
    requires KeepsNewest(before, after, client) && c != client
    ensures OfClient(after, c) == OfClient(before, c)
  {
  }

  lemma NamesKept(before: Pending, after: Pending, c: ClientId)
    requires KeepsNewestOfAll(before, after)
    ensures KeepsNewestOf(before, after, c) && OfClient(after, c) <= OfClient(before, c)
  {
  }

  lemma RecordKeepsNewestOf(all: Pending, middle: Pending, f: FileName, payload: Payload, after: Pending, c: ClientId)
    requires KeepsNewestOfAll(all, middle) && f !in all && KeepsNewest(middle[f := payload], after, payload.clientId)
    ensures KeepsNewestOf(all[f := payload], after, c)
  {
    NamesKept(all, middle, c);
    InsertedNames(all, f, payload, c);
    InsertedNames(middle, f, payload, c);
    if payload.clientId == c {
      KeepsNewestDropsOlder(middle[f := payload], after, c);
      NewestOfNewest(OfClient(all, c), OfClient(middle, c), f, OfClient(after, c));
    } else {
      KeepsOthers(middle[f := payload], after, payload.clientId, c);
      assert OfClient(middle, c) + {} == OfClient(middle, c) && OfClient(all, c) + {} == OfClient(all, c);
    }
  }

  lemma RecordKeepsNewest(all: Pending, middle: Pending, f: FileName, payload: Payload, after: Pending)
    requires KeepsNewestOfAll(all, middle) && f !in all && KeepsNewest(middle[f := payload], after, payload.clientId)
    ensures KeepsNewestOfAll(all[f := payload], after)
  {
    forall c {:trigger KeepsNewestOf(all[f := payload], after, c)} ensures KeepsNewestOf(all[f := payload], after, c) {
      RecordKeepsNewestOf(all, middle, f, payload, after, c);
    }
  }

  lemma FreshFront(pending: Pending, updates: seq<ClientUpdate>)
    requires updates != [] && NamesAreFresh(pending, updates)
    ensures NamesAreFresh(pending, updates[..|updates| - 1])
  {
  }

  lemma {:induction false} FreshAmongPayloads(pending: Pending, updates: seq<ClientUpdate>, name: FileName)
    requires name !in pending
    requires forall i | 0 <= i < |updates| && updates[i].update.Patch? :: updates[i].update.filename != name
    ensures name !in WithPayloads(pending, updates)
  {
    if updates != [] {
      FreshAmongPayloads(pending, updates[..|updates| - 1], name);
    }
  }

  /** Evicting after every insertion keeps what one eviction after all of them would keep: for each
      client the newest eight of its old and new payloads. */
  lemma {:induction false} PushKeepsNewest(before: Pending, updates: seq<ClientUpdate>, after: Pending)
    requires WithinBound(before) && NamesAreFresh(before, updates) && RecordsInTurn(before, updates, after)
    ensures KeepsNewestOfAll(WithPayloads(before, updates), after)
    decreases |updates|
  {
    if updates != [] {
      var n := |updates| - 1;
      var u := updates[n];
      var middle :| RecordsInTurn(before, updates[..n], middle) && Records(middle, u, after);
      FreshFront(before, updates);
      PushKeepsNewest(before, updates[..n], middle);
      if u.update.Patch? {
        FreshAmongPayloads(before, updates[..n], u.update.filename);
        RecordKeepsNewest(WithPayloads(before, updates[..n]), middle, u.update.filename, u.CarriedPayload(), after);
      }
    } else {
      forall c {:trigger KeepsNewestOf(before, after, c)} ensures KeepsNewestOf(before, after, c) {
      }
    }
  }

  /** After a whole push, too, each client has the entries with the eight highest patch ids among its
      old and its new ones. */
  lemma PushKeepsHighest(before: Pending, updates: seq<ClientUpdate>, after: Pending, c: ClientId)
    requires WithinBound(before) && NamesAreFresh(before, updates) && RecordsInTurn(before, updates, after)
    ensures KeepsHighest(OfClient(WithPayloads(before, updates), c), OfClient(after, c))
  {
    PushKeepsNewest(before, updates, after);
    NamesKept(WithPayloads(before, updates), after, c);
    NewestAreHighest(OfClient(WithPayloads(before, updates), c), OfClient(after, c));
  }
}
