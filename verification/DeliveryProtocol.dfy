/** The versioned delivery protocol under any interleaving of its lock sections. */
module DeliveryProtocol {
  import opened PatchIds
  import opened PendingPayloads
  import opened Sets

  // ---- Ship maps are pointwise maxima -----------------------------------------------------

  /** `shipped` maps exactly the modules in `claims`, each to its greatest stamp there. */
  ghost predicate IsMaximumOf(shipped: ShipMap, claims: set<(ModuleId, nat)>) {
    && (forall c | c in claims :: c.0 in shipped && c.1 <= shipped[c.0])
    && (forall m | m in shipped :: (m, shipped[m]) in claims)
  }

  ghost function Claims(modules: seq<(ModuleId, nat)>): set<(ModuleId, nat)> {
    set c | c in modules
  }

  lemma {:induction false} MergeIsMaximum(shipped: ShipMap, claims: set<(ModuleId, nat)>, modules: seq<(ModuleId, nat)>)
    requires IsMaximumOf(shipped, claims)
    ensures IsMaximumOf(Merge(shipped, modules), claims + Claims(modules))
  {
    if modules == [] {
      assert claims + Claims(modules) == claims;
    } else {
      var n := |modules| - 1;
      MergeIsMaximum(shipped, claims, modules[..n]);
      assert modules == modules[..n] + [modules[n]];
      assert Claims(modules) == Claims(modules[..n]) + {modules[n]};
    }
  }

  /** The maximum ignores the order and the repetition of what was merged. */
  lemma MaximumIsUnique(one: ShipMap, two: ShipMap, claims: set<(ModuleId, nat)>)
    requires IsMaximumOf(one, claims) && IsMaximumOf(two, claims)
    ensures one == two
  {
    forall m | m in one ensures m in two && one[m] <= two[m] {
      assert (m, one[m]) in claims;
    }
    forall m | m in two ensures m in one && two[m] <= one[m] {
      assert (m, two[m]) in claims;
    }
  }

  // ---- The protocol -----------------------------------------------------------------------

  /** The shared patch-id counter, and the ids drawn for payloads that are not recorded yet. */
  datatype Ids = Ids(nextId: nat, issued: set<nat>)

  /** Payloads: pending ones, those a delivery has taken but not merged yet, and the history: every
      payload ever recorded, the names clients reported, and the deliveries that reached a session. */
  datatype Store = Store(pending: Pending, taken: Pending, inserted: Pending, reported: set<FileName>,
      merged: seq<FileName>)

  /** Sessions, registrations between their two lock sections, all ids ever seen, and the numbers of
      the patches sent to each client. */
  datatype Roster = Roster(
    clients: Clients, registering: map<ClientId, ShipMap>, everRegistered: set<ClientId>, sent: map<ClientId, seq<nat>>)

  datatype World = World(ids: Ids, store: Store, roster: Roster, topLevel: ShipMap)

  const EMPTY := World(Ids(0, {}), Store(map[], map[], map[], {}, []), Roster(map[], map[], {}, map[]), map[])

  /** One lock section of one of the entry points. */
  datatype Action =
    | IssueId
    | InsertPayload(filename: FileName, id: nat, payload: Payload, kept: Pending)
    | ReadTopLevel(client: ClientId)
    | InsertSession(client: ClientId)
    | DropSession(client: ClientId)
    | DropPayloads(client: ClientId)
    | TakePayload(filename: FileName)
    | MergePayload(filename: FileName)
    | NumberPatch(client: ClientId)
    | SwapTopLevel(next: ShipMap)

  /** What the protocol needs to know about eviction: it only drops entries of one client, down to
      the bound. Which ones it drops does not matter here. */
  ghost predicate MayKeep(before: Pending, kept: Pending, client: ClientId) {
    && (forall f | f in kept :: f in before && kept[f] == before[f])
    && (forall f | f in before && before[f].clientId != client :: f in kept)
    && |OfClient(kept, client)| <= MAX_PENDING_PAYLOADS_PER_CLIENT
  }

  lemma EvictionMayKeep(before: Pending, kept: Pending, client: ClientId)
    requires KeepsNewest(before, kept, client)
    ensures MayKeep(before, kept, client)
  {
  }

  ghost predicate Enabled(w: World, a: Action) {
    match a
    // The counter does not wrap.
    case IssueId => w.ids.nextId <= U32_MAX
    // The name is built from an id that was drawn for this payload alone.
    case InsertPayload(filename, id, payload, kept) =>
      && id in w.ids.issued && HasId(filename, id)
      && MayKeep(w.store.pending[filename := payload], kept, payload.clientId)
    // A reconnecting client brings a fresh id.
    case ReadTopLevel(client) => client !in w.roster.everRegistered
    case InsertSession(client) => client in w.roster.registering
    case MergePayload(filename) => filename in w.store.taken
    case _ => true
  }

  predicate HasId(filename: FileName, id: nat) {
    IdOf(filename) == id
  }

  function StepIds(ids: Ids, a: Action): Ids {
    match a
    case IssueId => Ids(ids.nextId + 1, ids.issued + {ids.nextId})
    case InsertPayload(_, id, _, _) => ids.(issued := ids.issued - {id})
    case _ => ids
  }

  function StepStore(store: Store, clients: Clients, a: Action): Store {
    match a
    case InsertPayload(filename, _, payload, kept) =>
      store.(pending := kept, inserted := store.inserted[filename := payload])
    case DropPayloads(client) => store.(pending := Without(store.pending, client))
    case TakePayload(filename) => Take(store, filename)
    case MergePayload(filename) => MergeTaken(store, clients, filename)
    case _ => store
  }

  function Take(store: Store, filename: FileName): Store {
    var said := store.(reported := store.reported + {filename});
    if filename in store.pending then
      said.(pending := store.pending - {filename}, taken := store.taken[filename := store.pending[filename]])
    else said
  }

  function MergeTaken(store: Store, clients: Clients, filename: FileName): Store {
    if filename !in store.taken then store else
    var rest := store.(taken := store.taken - {filename});
    if store.taken[filename].clientId in clients then rest.(merged := store.merged + [filename]) else rest
  }

  function StepRoster(r: Roster, store: Store, topLevel: ShipMap, a: Action): Roster {
    match a
    case ReadTopLevel(client) =>
      r.(registering := r.registering[client := topLevel], everRegistered := r.everRegistered + {client})
    case InsertSession(client) => Register(r, client)
    case DropSession(client) => r.(clients := r.clients - {client})
    case MergePayload(filename) =>
      if filename in store.taken then r.(clients := Delivered(r.clients, store.taken[filename])) else r
    case NumberPatch(client) => Number(r, client)
    case _ => r
  }

  function Register(r: Roster, client: ClientId): Roster {
    var rest := r.(registering := r.registering - {client});
    if client in r.clients || client !in r.registering then rest
    else rest.(clients := r.clients[client := Session(map[], r.registering[client], 0)])
  }

  function SentTo(sent: map<ClientId, seq<nat>>, client: ClientId): seq<nat> {
    if client in sent then sent[client] else []
  }

  /** One patch of a push. A push numbers all its patches in one lock section; taking the patches one
      step at a time only allows more interleavings. */
  function Number(r: Roster, client: ClientId): Roster {
    if client !in r.clients then r else
    var session := r.clients[client];
    r.(clients := r.clients[client := session.(nextSeq := session.nextSeq + 1)],
       sent := r.sent[client := SentTo(r.sent, client) + [session.nextSeq + 1]])
  }

  function Apply(w: World, a: Action): World {
    World(StepIds(w.ids, a),
          StepStore(w.store, w.roster.clients, a),
          StepRoster(w.roster, w.store, w.topLevel, a),
          if a.SwapTopLevel? then a.next else w.topLevel)
  }

  ghost predicate IsRun(worlds: seq<World>, actions: seq<Action>) {
    && |worlds| == |actions| + 1 && worlds[0] == EMPTY
    && forall i | 0 <= i < |actions| :: StepAt(worlds, actions, i)
  }

  ghost predicate StepAt(worlds: seq<World>, actions: seq<Action>, i: nat)
    requires i < |actions| && |worlds| == |actions| + 1
  {
    Enabled(worlds[i], actions[i]) && worlds[i + 1] == Apply(worlds[i], actions[i])
  }

  // ---- Every payload is delivered at most once --------------------------------------------

  /** No recorded payload carries an id that is still outstanding. */
  ghost predicate IdsAreFresh(ids: Ids, inserted: Pending) {
    && ids.nextId <= U32_MAX + 1
    && (forall id | id in ids.issued :: id < ids.nextId)
    && (forall f, id: nat {:trigger HasId(f, id)} | f in inserted && HasId(f, id) ::
        id < ids.nextId && id !in ids.issued)
  }

  lemma IdsStayFresh(w: World, a: Action)
    requires IdsAreFresh(w.ids, w.store.inserted) && Enabled(w, a)
    ensures IdsAreFresh(Apply(w, a).ids, Apply(w, a).store.inserted)
  {
  }

  lemma FreshName(w: World, filename: FileName, id: nat)
    requires IdsAreFresh(w.ids, w.store.inserted) && id in w.ids.issued && HasId(filename, id)
    ensures filename !in w.store.inserted
  {
  }

  /** Pending and taken payloads are recorded ones, and no payload is both. */
  ghost predicate AllInserted(s: Store) {
    && (forall f | f in s.pending :: f in s.inserted && s.pending[f] == s.inserted[f])
    && (forall f | f in s.taken :: f in s.inserted && s.taken[f] == s.inserted[f] && f !in s.pending && f in s.reported)
  }

  /** A delivery is merged at most once, after its report, and is pending or taken no more. */
  ghost predicate MergedOnce(s: Store, everRegistered: set<ClientId>) {
    && (forall f | f in s.merged ::
          && f in s.inserted && f !in s.pending && f !in s.taken && f in s.reported
          && s.inserted[f].clientId in everRegistered)
    && (forall i, j | 0 <= i < j < |s.merged| :: s.merged[i] != s.merged[j])
  }

  lemma PayloadsStayInserted(w: World, a: Action)
    requires IdsAreFresh(w.ids, w.store.inserted) && AllInserted(w.store) && Enabled(w, a)
    ensures AllInserted(Apply(w, a).store)
  {
    if a.InsertPayload? {
      FreshName(w, a.filename, a.id);
      assert forall f | f in a.kept :: f == a.filename || (f in w.store.pending && a.kept[f] == w.store.pending[f]);
    }
  }

  lemma DeliveriesStayMergedOnce(w: World, a: Action)
    requires IdsAreFresh(w.ids, w.store.inserted) && AllInserted(w.store) && Enabled(w, a)
    requires MergedOnce(w.store, w.roster.everRegistered)
    requires forall c | c in w.roster.clients :: c in w.roster.everRegistered
    ensures MergedOnce(Apply(w, a).store, Apply(w, a).roster.everRegistered)
  {
    if a.InsertPayload? {
      FreshName(w, a.filename, a.id);
      assert forall f | f in a.kept :: f == a.filename || f in w.store.pending;
    } else if a.MergePayload? {
      assert a.filename !in w.store.merged;
    }
  }

  // ---- Sessions ---------------------------------------------------------------------------

  /** Everything that the deliveries merged so far claim for one client. */
  ghost function Claimed(inserted: Pending, merged: seq<FileName>, client: ClientId): set<(ModuleId, nat)> {
    set f, c | f in merged && f in inserted && inserted[f].clientId == client && c in inserted[f].modules :: c
  }

  ghost predicate SessionIsMaximum(r: Roster, s: Store, client: ClientId)
    requires client in r.clients
  {
    IsMaximumOf(r.clients[client].shipped, Claimed(s.inserted, s.merged, client))
  }

  /** A client that is registering has no session and has been delivered nothing. */
  ghost predicate Untouched(r: Roster, s: Store, client: ClientId) {
    client !in r.clients && forall f | f in s.merged && f in s.inserted :: s.inserted[f].clientId != client
  }

  ghost predicate SessionsAreMaxima(r: Roster, s: Store) {
    && (forall c | c in r.clients || c in r.registering :: c in r.everRegistered)
    && (forall c {:trigger Untouched(r, s, c)} | c in r.registering :: Untouched(r, s, c))
    && (forall c {:trigger SessionIsMaximum(r, s, c)} | c in r.clients :: SessionIsMaximum(r, s, c))
  }

  lemma InsertKeepsClaims(s: Store, f: FileName, payload: Payload, client: ClientId)
    requires f !in s.inserted && f !in s.merged
    ensures Claimed(s.inserted[f := payload], s.merged, client) == Claimed(s.inserted, s.merged, client)
  {
    var after := s.inserted[f := payload];
    forall c ensures c in Claimed(after, s.merged, client) <==> c in Claimed(s.inserted, s.merged, client) {
      if c in Claimed(s.inserted, s.merged, client) {
        var g :| g in s.merged && g in s.inserted && s.inserted[g].clientId == client && c in s.inserted[g].modules;
        assert g in after && after[g] == s.inserted[g];
      }
    }
  }

  lemma MergeAddsClaims(inserted: Pending, merged: seq<FileName>, f: FileName, client: ClientId)
    requires f in inserted
    ensures Claimed(inserted, merged + [f], client) == Claimed(inserted, merged, client) +
            if inserted[f].clientId == client then Claims(inserted[f].modules) else {}
  {
    forall c ensures c in Claimed(inserted, merged + [f], client) <==>
        c in Claimed(inserted, merged, client) || (inserted[f].clientId == client && c in inserted[f].modules)
    {
      if inserted[f].clientId == client && c in inserted[f].modules {
        assert f in merged + [f];
      }
      if c in Claimed(inserted, merged, client) {
        var g :| g in merged && g in inserted && inserted[g].clientId == client && c in inserted[g].modules;
        assert g in merged + [f];
      }
    }
  }

  lemma InsertKeepsMaxima(w: World, a: Action)
    requires IdsAreFresh(w.ids, w.store.inserted) && MergedOnce(w.store, w.roster.everRegistered)
    requires SessionsAreMaxima(w.roster, w.store) && Enabled(w, a) && a.InsertPayload?
    ensures SessionsAreMaxima(w.roster, Apply(w, a).store)
  {
    var r, s, t := w.roster, w.store, Apply(w, a).store;
    FreshName(w, a.filename, a.id);
    forall c | c in r.clients ensures SessionIsMaximum(r, t, c) {
      assert SessionIsMaximum(r, s, c);
      InsertKeepsClaims(s, a.filename, a.payload, c);
    }
    forall c | c in r.registering ensures Untouched(r, t, c) {
      assert Untouched(r, s, c);
    }
  }

  lemma MergeKeepsMaximum(w: World, filename: FileName, c: ClientId)
    requires AllInserted(w.store) && filename in w.store.taken && w.store.taken[filename].clientId in w.roster.clients
    requires c in w.roster.clients && SessionIsMaximum(w.roster, w.store, c)
    ensures c in Delivered(w.roster.clients, w.store.taken[filename])
    ensures IsMaximumOf(Delivered(w.roster.clients, w.store.taken[filename])[c].shipped,
                        Claimed(w.store.inserted, w.store.merged + [filename], c))
  {
    var payload := w.store.taken[filename];
    var claims := Claimed(w.store.inserted, w.store.merged, c);
    MergeAddsClaims(w.store.inserted, w.store.merged, filename, c);
    if c == payload.clientId {
      MergeIsMaximum(w.roster.clients[c].shipped, claims, payload.modules);
    } else {
      assert claims + {} == claims;
    }
  }

  lemma MergeKeepsMaxima(w: World, a: Action)
    requires AllInserted(w.store) && SessionsAreMaxima(w.roster, w.store) && Enabled(w, a) && a.MergePayload?
    ensures SessionsAreMaxima(Apply(w, a).roster, Apply(w, a).store)
  {
    var r, s, q, t := w.roster, w.store, Apply(w, a).roster, Apply(w, a).store;
    forall c | c in q.clients ensures SessionIsMaximum(q, t, c) {
      assert SessionIsMaximum(r, s, c);
      if s.taken[a.filename].clientId in r.clients {
        MergeKeepsMaximum(w, a.filename, c);
      }
    }
    forall c | c in q.registering ensures Untouched(q, t, c) {
      assert Untouched(r, s, c);
    }
  }

  lemma RosterKeepsMaxima(w: World, a: Action)
    requires MergedOnce(w.store, w.roster.everRegistered) && SessionsAreMaxima(w.roster, w.store) && Enabled(w, a)
    requires !a.MergePayload? && !a.InsertPayload?
    ensures SessionsAreMaxima(Apply(w, a).roster, w.store)
  {
    var r, s, q := w.roster, w.store, Apply(w, a).roster;
    forall c | c in q.registering ensures Untouched(q, s, c) {
      assert c in r.registering ==> Untouched(r, s, c);
    }
    forall c | c in q.clients ensures SessionIsMaximum(q, s, c) {
      if c in r.clients {
        assert SessionIsMaximum(r, s, c);
      } else {
        assert Untouched(r, s, c);
        assert Claimed(s.inserted, s.merged, c) == {};
      }
    }
  }

  lemma StoreKeepsMaxima(r: Roster, s: Store, t: Store)
    requires SessionsAreMaxima(r, s) && t.inserted == s.inserted && t.merged == s.merged
    ensures SessionsAreMaxima(r, t)
  {
    forall c | c in r.clients ensures SessionIsMaximum(r, t, c) {
      assert SessionIsMaximum(r, s, c);
    }
    forall c | c in r.registering ensures Untouched(r, t, c) {
      assert Untouched(r, s, c);
    }
  }

  lemma SessionsStayMaxima(w: World, a: Action)
    requires IdsAreFresh(w.ids, w.store.inserted) && AllInserted(w.store)
    requires MergedOnce(w.store, w.roster.everRegistered) && SessionsAreMaxima(w.roster, w.store) && Enabled(w, a)
    ensures SessionsAreMaxima(Apply(w, a).roster, Apply(w, a).store)
  {
    if a.MergePayload? {
      MergeKeepsMaxima(w, a);
    } else if a.InsertPayload? {
      InsertKeepsMaxima(w, a);
    } else {
      RosterKeepsMaxima(w, a);
      StoreKeepsMaxima(Apply(w, a).roster, w.store, Apply(w, a).store);
    }
  }

  // ---- Sequence numbers and the bound -----------------------------------------------------

  predicate CountsFromOne(s: seq<nat>) {
    forall i | 0 <= i < |s| :: s[i] == i + 1
  }

  ghost predicate Numbered(r: Roster) {
    && (forall c | c in r.clients :: |SentTo(r.sent, c)| == r.clients[c].nextSeq)
    && (forall c | c in r.sent :: CountsFromOne(r.sent[c]) && c in r.everRegistered && c !in r.registering)
  }

  lemma PatchesStayNumbered(w: World, a: Action)
    requires SessionsAreMaxima(w.roster, w.store) && Numbered(w.roster) && Enabled(w, a)
    ensures Numbered(Apply(w, a).roster)
  {
    var r, q := w.roster, Apply(w, a).roster;
    if a.NumberPatch? {
      assert a.client in r.registering ==> Untouched(r, w.store, a.client);
      assert a.client in r.clients ==> |SentTo(r.sent, a.client)| == r.clients[a.client].nextSeq;
      forall c | c in q.sent ensures CountsFromOne(q.sent[c]) && c in q.everRegistered && c !in q.registering {
        assert c in r.sent ==> CountsFromOne(r.sent[c]);
      }
    }
  }

  lemma PendingStaysBounded(w: World, a: Action)
    requires WithinBound(w.store.pending) && Enabled(w, a)
    ensures WithinBound(Apply(w, a).store.pending)
  {
    var before, after := w.store.pending, Apply(w, a).store.pending;
    forall c ensures |OfClient(after, c)| <= MAX_PENDING_PAYLOADS_PER_CLIENT {
      if !a.InsertPayload? || a.payload.clientId != c {
        assert OfClient(after, c) <= OfClient(before, c);
        SubsetCard(OfClient(after, c), OfClient(before, c));
      }
    }
  }

  // ---- The protocol invariant -------------------------------------------------------------

  ghost predicate Inv(w: World) {
    && IdsAreFresh(w.ids, w.store.inserted)
    && AllInserted(w.store)
    && MergedOnce(w.store, w.roster.everRegistered)
    && SessionsAreMaxima(w.roster, w.store)
    && Numbered(w.roster)
    && WithinBound(w.store.pending)
  }

  lemma StepKeepsInv(w: World, a: Action)
    requires Inv(w) && Enabled(w, a)
    ensures Inv(Apply(w, a))
  {
    IdsStayFresh(w, a);
    PayloadsStayInserted(w, a);
    DeliveriesStayMergedOnce(w, a);
    SessionsStayMaxima(w, a);
    PatchesStayNumbered(w, a);
    PendingStaysBounded(w, a);
  }

  lemma EmptyHasInv()
    ensures Inv(EMPTY)
  {
    forall c ensures OfClient(EMPTY.store.pending, c) == {} {}
  }

  lemma {:induction false} RunHasInv(worlds: seq<World>, actions: seq<Action>, i: nat)
    requires IsRun(worlds, actions) && i < |worlds|
    ensures Inv(worlds[i])
  {
    if i == 0 {
      EmptyHasInv();
    } else {
      RunHasInv(worlds, actions, i - 1);
      assert StepAt(worlds, actions, i - 1);
      StepKeepsInv(worlds[i - 1], actions[i - 1]);
    }
  }

  /** A delivery of `f` that reached `client`'s session: the payload was inserted for that client,
      and the client reported that it ran it. */
  ghost predicate DeliveredTo(s: Store, client: ClientId, f: FileName) {
    f in s.merged && f in s.reported && f in s.inserted && s.inserted[f].clientId == client
  }

  /** In every run, a registered client's ship map is the maximum over the payloads that were
      delivered to it while pending, each counted once. */
  lemma ShippedIsMaximumOfDeliveries(worlds: seq<World>, actions: seq<Action>, i: nat, client: ClientId)
    requires IsRun(worlds, actions) && i < |worlds| && client in worlds[i].roster.clients
    ensures var s, shipped := worlds[i].store, worlds[i].roster.clients[client].shipped;
      && (forall f, c | DeliveredTo(s, client, f) && c in s.inserted[f].modules ::
          c.0 in shipped && c.1 <= shipped[c.0])
      && (forall m | m in shipped :: exists f :: DeliveredTo(s, client, f) && (m, shipped[m]) in s.inserted[f].modules)
      && (forall j, k | 0 <= j < k < |s.merged| :: s.merged[j] != s.merged[k])
  {
    RunHasInv(worlds, actions, i);
    var r, s := worlds[i].roster, worlds[i].store;
    assert SessionIsMaximum(r, s, client);
    var shipped, claims := r.clients[client].shipped, Claimed(s.inserted, s.merged, client);
    forall m | m in shipped ensures exists f :: DeliveredTo(s, client, f) && (m, shipped[m]) in s.inserted[f].modules {
      assert (m, shipped[m]) in claims;
      var f :| f in s.merged && f in s.inserted && s.inserted[f].clientId == client
          && (m, shipped[m]) in s.inserted[f].modules;
      assert DeliveredTo(s, client, f);
    }
    forall f, c | DeliveredTo(s, client, f) && c in s.inserted[f].modules ensures c.0 in shipped && c.1 <= shipped[c.0]
    {
      assert c in claims;
    }
  }

  /** While a client stays registered, its ship map never loses a module or lowers a stamp, and its
      top-level map never changes. */
  lemma ShippedNeverDecreases(worlds: seq<World>, actions: seq<Action>, i: nat, client: ClientId)
    requires IsRun(worlds, actions) && i < |actions|
    requires client in worlds[i].roster.clients && client in worlds[i + 1].roster.clients
    ensures var before, after := worlds[i].roster.clients[client], worlds[i + 1].roster.clients[client];
      && (forall m | m in before.shipped :: m in after.shipped && before.shipped[m] <= after.shipped[m])
      && after.topLevelEvaluated == before.topLevelEvaluated
  {
    assert StepAt(worlds, actions, i);
    if actions[i].MergePayload? {
      MergeNeverDecreases(worlds[i].roster.clients[client].shipped, worlds[i].store.taken[actions[i].filename].modules);
    }
  }

  lemma {:induction false} MergeNeverDecreases(shipped: ShipMap, modules: seq<(ModuleId, nat)>)
    ensures forall m | m in shipped :: m in Merge(shipped, modules) && shipped[m] <= Merge(shipped, modules)[m]
  {
    if modules != [] {
      MergeNeverDecreases(shipped, modules[..|modules| - 1]);
    }
  }

  /** In every run, the patches sent to a client's session carry 1, 2, 3, ... without a gap, and no
      client has more than eight pending payloads. */
  lemma NumbersHaveNoGaps(worlds: seq<World>, actions: seq<Action>, i: nat, client: ClientId)
    requires IsRun(worlds, actions) && i < |worlds|
    ensures var r := worlds[i].roster;
      && CountsFromOne(SentTo(r.sent, client))
      && (client in r.clients ==> r.clients[client].nextSeq == |SentTo(r.sent, client)|)
    ensures |OfClient(worlds[i].store.pending, client)| <= 8
  {
    RunHasInv(worlds, actions, i);
  }

  // ---- The entry points are sequences of these actions ------------------------------------

  function RunAll(w: World, actions: seq<Action>): World {
    if actions == [] then w else Apply(RunAll(w, actions[..|actions| - 1]), actions[|actions| - 1])
  }

  ghost predicate CanRun(w: World, actions: seq<Action>) {
    actions == [] ||
    (CanRun(w, actions[..|actions| - 1]) && Enabled(RunAll(w, actions[..|actions| - 1]), actions[|actions| - 1]))
  }

  lemma RunOneMore(w: World, actions: seq<Action>, a: Action)
    requires CanRun(w, actions) && Enabled(RunAll(w, actions), a)
    ensures CanRun(w, actions + [a]) && RunAll(w, actions + [a]) == Apply(RunAll(w, actions), a)
  {
    assert (actions + [a])[..|actions|] == actions;
  }

  lemma LastOfRun(w: World, actions: seq<Action>)
    requires CanRun(w, actions) && actions != []
    ensures var front, last := actions[..|actions| - 1], actions[|actions| - 1];
      && CanRun(w, front) && Enabled(RunAll(w, front), last)
      && RunAll(w, actions) == Apply(RunAll(w, front), last)
  {
  }

  lemma {:induction false} RunAfter(w: World, first: seq<Action>, second: seq<Action>)
    requires CanRun(w, first) && CanRun(RunAll(w, first), second)
    ensures CanRun(w, first + second) && RunAll(w, first + second) == RunAll(RunAll(w, first), second)
    decreases |second|
  {
    if second == [] {
      assert first + second == first;
    } else {
      var n := |second| - 1;
      LastOfRun(RunAll(w, first), second);
      RunAfter(w, first, second[..n]);
      RunOneMore(w, first + second[..n], second[n]);
      assert first + second == (first + second[..n]) + [second[n]];
    }
  }

  /** What the dev context sees of a world. */
  function Maps(w: World): Shared {
    Shared(w.roster.clients, w.store.pending, w.topLevel)
  }

  /** A delivery report takes the payload, and then merges what it took. */
  lemma NotifyTakesThenMerges(w: World, filename: FileName)
    ensures var actions := [TakePayload(filename)]
        + (if filename in w.store.pending then [MergePayload(filename)] else []);
      CanRun(w, actions) && Maps(RunAll(w, actions)) == Notified(Maps(w), filename)
  {
    var take, merge := TakePayload(filename), MergePayload(filename);
    RunOneMore(w, [], take);
    assert [] + [take] == [take] && [take] + [] == [take];
    if filename in w.store.pending {
      assert Apply(w, take).store.taken[filename] == w.store.pending[filename];
      RunOneMore(w, [take], merge);
    }
  }

  /** A registration reads the top-level map, and then inserts the session. */
  lemma RegisterReadsThenInserts(w: World, client: ClientId)
    requires client in w.roster.clients || (Inv(w) && client !in w.roster.everRegistered)
    ensures var actions := if client in w.roster.clients then [] else [ReadTopLevel(client), InsertSession(client)];
      CanRun(w, actions) && Maps(RunAll(w, actions)) == Registered(Maps(w), client)
  {
    if client !in w.roster.clients {
      var read, insert := ReadTopLevel(client), InsertSession(client);
      RunOneMore(w, [], read);
      assert [] + [read] == [read] && [read] + [insert] == [read, insert];
      RunOneMore(w, [read], insert);
    }
  }

  /** A removal drops the session, and then the payloads. */
  lemma RemoveDropsSessionThenPayloads(w: World, client: ClientId)
    ensures var actions := [DropSession(client), DropPayloads(client)];
      CanRun(w, actions) && Maps(RunAll(w, actions)) == Removed(Maps(w), client)
  {
    var session, payloads := DropSession(client), DropPayloads(client);
    RunOneMore(w, [], session);
    assert [] + [session] == [session] && [session] + [payloads] == [session, payloads];
    RunOneMore(w, [session], payloads);
  }

  /** An insertion with its eviction is one action. */
  lemma InsertIsInsertPayload(w: World, filename: FileName, id: nat, payload: Payload, after: Pending)
    requires id in w.ids.issued && HasId(filename, id)
    requires KeepsNewest(w.store.pending[filename := payload], after, payload.clientId)
    ensures var a := InsertPayload(filename, id, payload, after);
      Enabled(w, a) && Maps(Apply(w, a)) == Maps(w).(pending := after)
  {
    EvictionMayKeep(w.store.pending[filename := payload], after, payload.clientId);
  }

  ghost predicate KeepsCount(before: Roster, after: Roster, updates: seq<ClientUpdate>, c: ClientId) {
    |SentTo(after.sent, c)| == |SentTo(before.sent, c)| + if c in before.clients then PatchCount(updates, c) else 0
  }

  lemma OneNumber(before: Roster, middle: Roster, updates: seq<ClientUpdate>, c: ClientId)
    requires updates != [] && updates[|updates| - 1].update.Patch?
    requires KeepsCount(before, middle, updates[..|updates| - 1], c) && middle.clients.Keys == before.clients.Keys
    ensures KeepsCount(before, Number(middle, updates[|updates| - 1].client), updates, c)
  {
  }

  /** Numbering a push is numbering its patches one by one, and each number is sent. */
  lemma {:induction false} AssignNumbersPatches(w: World, updates: seq<ClientUpdate>) returns (actions: seq<Action>)
    ensures CanRun(w, actions)
    ensures var x := RunAll(w, actions);
      && x == w.(roster := x.roster) && x.roster.clients == Assigned(w.roster.clients, updates).0
      && x.roster.clients.Keys == w.roster.clients.Keys
      && forall c {:trigger KeepsCount(w.roster, x.roster, updates, c)} :: KeepsCount(w.roster, x.roster, updates, c)
  {
    actions := [];
    if updates != [] {
      var n := |updates| - 1;
      actions := AssignNumbersPatches(w, updates[..n]);
      var middle, u := RunAll(w, actions), updates[n];
      if u.update.Patch? {
        RunOneMore(w, actions, NumberPatch(u.client));
        actions := actions + [NumberPatch(u.client)];
        forall c {:trigger KeepsCount(w.roster, RunAll(w, actions).roster, updates, c)}
          ensures KeepsCount(w.roster, RunAll(w, actions).roster, updates, c)
        {
          assert KeepsCount(w.roster, middle.roster, updates[..n], c);
          OneNumber(w.roster, middle.roster, updates, c);
        }
      } else {
        forall c {:trigger KeepsCount(w.roster, middle.roster, updates, c)}
          ensures KeepsCount(w.roster, middle.roster, updates, c)
        {
          assert KeepsCount(w.roster, middle.roster, updates[..n], c);
        }
      }
    }
  }

  /** The names of a push are made from ids that were drawn for its patches alone. */
  ghost predicate DrawnFor(issued: set<nat>, updates: seq<ClientUpdate>, ids: seq<nat>) {
    && |ids| == |updates|
    && (forall i | 0 <= i < |updates| && updates[i].update.Patch? ::
          ids[i] in issued && HasId(updates[i].update.filename, ids[i]))
    && forall i, j | 0 <= i < j < |ids| :: ids[i] != ids[j]
  }

  lemma {:induction false} RecordInsertsPayloads(w: World, updates: seq<ClientUpdate>, ids: seq<nat>, after: Pending)
      returns (actions: seq<Action>)
    requires RecordsInTurn(w.store.pending, updates, after) && DrawnFor(w.ids.issued, updates, ids)
    ensures CanRun(w, actions)
    ensures var x := RunAll(w, actions);
      && Maps(x) == Maps(w).(pending := after) && x.roster == w.roster
      && forall id | id in w.ids.issued && id !in ids :: id in x.ids.issued
    decreases |updates|
  {
    actions := [];
    if updates != [] {
      var n := |updates| - 1;
      var u := updates[n];
      var middle :| RecordsInTurn(w.store.pending, updates[..n], middle) && Records(middle, u, after);
      actions := RecordInsertsPayloads(w, updates[..n], ids[..n], middle);
      assert ids == ids[..n] + [ids[n]];
      if u.update.Patch? {
        var insert := InsertPayload(u.update.filename, ids[n], u.CarriedPayload(), after);
        assert ids[n] in RunAll(w, actions).ids.issued;
        InsertIsInsertPayload(RunAll(w, actions), u.update.filename, ids[n], u.CarriedPayload(), after);
        RunOneMore(w, actions, insert);
        actions := actions + [insert];
      }
    }
  }

  lemma NumberingIsUnique(before: Clients, updates: seq<ClientUpdate>, one: Clients, two: Clients,
                          a: seq<ClientUpdate>, b: seq<ClientUpdate>)
    requires IsNumbering(before, updates, one, a) && IsNumbering(before, updates, two, b)
    ensures one == two && a == b
  {
  }

  lemma {:induction false} ActionsKeepInv(w: World, actions: seq<Action>)
    requires Inv(w) && CanRun(w, actions)
    ensures Inv(RunAll(w, actions))
    decreases |actions|
  {
    if actions != [] {
      var n := |actions| - 1;
      ActionsKeepInv(w, actions[..n]);
      StepKeepsInv(RunAll(w, actions[..n]), actions[n]);
    }
  }

  /** A push is a run of the protocol, and so keeps its invariant. */
  lemma PushFollowsProtocol(w: World, updates: seq<ClientUpdate>, ids: seq<nat>, clients: Clients,
                            numbered: seq<ClientUpdate>, pending: Pending) returns (actions: seq<Action>)
    requires IsNumbering(w.roster.clients, updates, clients, numbered)
    requires RecordsInTurn(w.store.pending, numbered, pending) && DrawnFor(w.ids.issued, updates, ids)
    ensures CanRun(w, actions) && Maps(RunAll(w, actions)) == Shared(clients, pending, w.topLevel)
    ensures Inv(w) ==> Inv(RunAll(w, actions))
  {
    var numbers := AssignNumbersPatches(w, updates);
    var x := RunAll(w, numbers);
    AssignedIsNumbering(w.roster.clients, updates);
    NumberingIsUnique(w.roster.clients, updates, clients, x.roster.clients, numbered,
        Assigned(w.roster.clients, updates).1);
    assert DrawnFor(x.ids.issued, numbered, ids) by {
      forall i | 0 <= i < |updates| && numbered[i].update.Patch?
        ensures ids[i] in x.ids.issued && HasId(numbered[i].update.filename, ids[i])
      {
        assert numbered[i] == WithNumber(w.roster.clients, updates, i);
      }
    }
    var inserts := RecordInsertsPayloads(x, numbered, ids, pending);
    RunAfter(w, numbers, inserts);
    actions := numbers + inserts;
    if Inv(w) {
      ActionsKeepInv(w, actions);
    }
  }

  // ---- Snapshots --------------------------------------------------------------------------

  /** What the top-level map was swapped for last, before step `n`. */
  ghost function LastSwap(actions: seq<Action>, n: nat): ShipMap
    requires n <= |actions|
  {
    if n == 0 then map[]
    else if actions[n - 1].SwapTopLevel? then actions[n - 1].next
    else LastSwap(actions, n - 1)
  }

  /** The client began to register before step `n`, when the top-level map was this one. */
  ghost predicate Froze(actions: seq<Action>, n: nat, client: ClientId, snapshot: ShipMap)
    requires n <= |actions|
  {
    exists i: nat | i < n :: actions[i] == ReadTopLevel(client) && snapshot == LastSwap(actions, i)
  }

  /** In every run: a session has the top-level map as it was when its client began to register, whatever it was
      swapped for since. */
  lemma {:induction false} SnapshotIsFrozen(worlds: seq<World>, actions: seq<Action>, n: nat)
    requires IsRun(worlds, actions) && n <= |actions|
    ensures worlds[n].topLevel == LastSwap(actions, n)
    ensures forall c | c in worlds[n].roster.registering :: Froze(actions, n, c, worlds[n].roster.registering[c])
    ensures forall c | c in worlds[n].roster.clients ::
      Froze(actions, n, c, worlds[n].roster.clients[c].topLevelEvaluated)
  {
    if n > 0 {
      SnapshotIsFrozen(worlds, actions, n - 1);
      assert StepAt(worlds, actions, n - 1);
      var before, after := worlds[n - 1].roster, worlds[n].roster;
      forall c | c in after.registering ensures Froze(actions, n, c, after.registering[c]) {
        assert c in before.registering && after.registering[c] == before.registering[c] ==>
               Froze(actions, n - 1, c, before.registering[c]);
      }
      forall c | c in after.clients ensures Froze(actions, n, c, after.clients[c].topLevelEvaluated) {
        SnapshotStays(before, worlds[n - 1].store, worlds[n - 1].topLevel, actions[n - 1], c);
      }
    }
  }

  lemma SnapshotStays(r: Roster, store: Store, topLevel: ShipMap, a: Action, c: ClientId)
    requires c in StepRoster(r, store, topLevel, a).clients
    ensures var snapshot := StepRoster(r, store, topLevel, a).clients[c].topLevelEvaluated;
      || (c in r.clients && snapshot == r.clients[c].topLevelEvaluated)
      || (c in r.registering && snapshot == r.registering[c])
  {
  }
}
