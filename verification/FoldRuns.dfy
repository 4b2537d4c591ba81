/** What every run of controller and graph operations over the memory store keeps. */
module FoldRuns {
  import opened Wrappers
  import opened Arithmetic
  import opened Digests
  import opened Identity
  import opened PageKey
  import opened PageRecord
  import opened GraphState
  import opened PageStore
  import opened FoldState
  import opened FoldTruth
  import opened PageLeases
  import Runs = GraphRuns

  datatype FoldOp =
    | DoRegister(record: Record, exactBytes: u64, archiveBytes: u64, archiveRef: Text)
    | DoPersist(page: PageId, form: Form, payload: Text)
    | DoPromote(page: PageId, bytes: u64, codec: Text)
    | DoSafeEvict(page: PageId, kind: Kind)
    | DoMarkHot(page: PageId)
    | DoMarkCold(page: PageId)
    | DoSetRecentHot(currentToken: u64, window: u64)
    | OnGraph(op: Runs.Op)

  ghost predicate Returns(w: World, op: FoldOp) {
    op.OnGraph? ==> Runs.Returns(w.graph, op.op)
  }

  ghost function Apply(h: Mixer, w: World, op: FoldOp): World
    requires Returns(w, op)
  {
    match op
    case DoRegister(record, exactBytes, archiveBytes, archiveRef) =>
      Register(w, record, exactBytes, archiveBytes, archiveRef).0
    case DoPersist(p, form, payload) => Persist(w, p, form, payload).0
    case DoPromote(p, bytes, codec) => Promote(w, p, bytes, codec).0
    case DoSafeEvict(p, kind) => SafeEvict(w, p, kind).0
    case DoMarkHot(p) => MarkHot(w, p).0
    case DoMarkCold(p) => MarkCold(w, p).0
    case DoSetRecentHot(currentToken, window) => SetRecentHot(w, currentToken, window).0
    case OnGraph(g) => w.(graph := Runs.Apply(h, w.graph, g))
  }

  ghost predicate Step(h: Mixer, w: World, op: FoldOp, w': World) {
    Returns(w, op) && w' == Apply(h, w, op)
  }

  /** Any operations, in any order, from an empty graph and an empty store. */
  ghost predicate Run(h: Mixer, storeId: Text, states: seq<World>, ops: seq<FoldOp>) {
    && |states| == |ops| + 1 && states[0] == World(EMPTY, PageStore.Store(storeId, 0, map[]), {})
    && forall i :: 0 <= i < |ops| ==> Step(h, states[i], ops[i], states[i + 1])
  }

  ghost predicate Unplaced(reps: seq<Representation>) {
    forall rep :: rep in reps ==> StoredAt(rep).None?
  }

  /** Store places come from persists alone, and no persist meets a saturated offset. */
  ghost predicate OnlyPlaces(w: World, op: FoldOp) {
    && (op.DoRegister? ==> Unplaced(op.record.representations))
    && (op.DoPersist? ==> w.store.nextOffset < U64_MAX)
    && (op.OnGraph? && op.op.DoAttach? ==> Unplaced(op.op.record.representations))
    && (op.OnGraph? && op.op.DoAdd? ==> StoredAt(op.op.rep).None?)
  }

  /** The latest bytes a caller has been told were persisted, after an operation. */
  function LatestAfter(w: World, latest: Latest, op: FoldOp): Latest {
    if op.DoPersist? && Persist(w, op.page, op.form, op.payload).1.Ok?
    then latest[(op.page, op.form.Kind()) := op.payload]
    else latest
  }

  /** The same before the n-th operation of a run. */
  function LatestAt(states: seq<World>, ops: seq<FoldOp>, n: nat): Latest
    requires n <= |ops| && |ops| < |states|
  {
    if n == 0 then map[] else LatestAfter(states[n - 1], LatestAt(states, ops, n - 1), ops[n - 1])
  }

  // ---- one operation ------------------------------------------------------------------

  lemma NoNewPlacesTwice(a: GraphState.Graph, b: GraphState.Graph, c: GraphState.Graph)
    requires NoNewPlaces(a, b) && NoNewPlaces(b, c)
    ensures NoNewPlaces(a, c)
  {
  }

  lemma AttachWithoutPlace(g: GraphState.Graph, page: Record)
    requires Unplaced(page.representations)
    ensures NoNewPlaces(g, Attach(g, page).0)
  {
  }

  lemma RegisterAddsNoPlace(w: World, page: Record, exactBytes: u64, archiveBytes: u64, archiveRef: Text)
    requires Unplaced(page.representations)
    ensures var w' := Register(w, page, exactBytes, archiveBytes, archiveRef).0;
            NoNewPlaces(w.graph, w'.graph) && w'.store == w.store
  {
    hide Attach, AddRepresentation, NoNewPlaces, Unplaced;
    var g1 := Attach(w.graph, page).0;
    AttachWithoutPlace(w.graph, page);
    var hot, archive := HotQ8(exactBytes, None), Archive(archiveBytes, archiveRef, None);
    var g2 := AddRepresentation(g1, page.id, hot, g1.generation).0;
    AddWithoutPlace(g1, page.id, hot, g1.generation);
    NoNewPlacesTwice(w.graph, g1, g2);
    var g3 := AddRepresentation(g2, page.id, archive, g1.generation).0;
    AddWithoutPlace(g2, page.id, archive, g1.generation);
    NoNewPlacesTwice(w.graph, g2, g3);
  }

  lemma GraphOpAddsNoPlace(h: Mixer, w: World, op: Runs.Op)
    requires Runs.Returns(w.graph, op) && OnlyPlaces(w, OnGraph(op))
    ensures NoNewPlaces(w.graph, Runs.Apply(h, w.graph, op))
  {
    hide NodeId, ClosureOf, ClosureRoot, WithChild, ExtendsTokens, RetainFrom, ReleaseFrom, Ends, LeaseId, Find;
    if op.DoAdd? {
      AddWithoutPlace(w.graph, op.page, op.rep, op.expected);
    } else if op.DoAttach? {
      AttachWithoutPlace(w.graph, op.record);
    } else if op.DoEvict? {
      EvictAddsNoPlace(w.graph, op.page, op.kind, op.expected);
    } else {
      OtherOpsKeepPlaces(h, w.graph, op);
    }
  }

  lemma OtherOpsKeepPlaces(h: Mixer, g: GraphState.Graph, op: Runs.Op)
    requires Runs.Returns(g, op) && !op.DoAdd? && !op.DoAttach? && !op.DoEvict?
    ensures NoNewPlaces(g, Runs.Apply(h, g, op))
  {
    hide NodeId, ClosureOf, ClosureRoot, WithChild, ExtendsTokens, RetainFrom, ReleaseFrom, Ends, LeaseId, Find;
    hide StoredAt;
  }

  lemma PlacelessKeepsStored(w: World, latest: Latest, w': World)
    requires Stored(w, latest) && NoNewPlaces(w.graph, w'.graph) && w'.store == w.store
    ensures Stored(w', latest)
  {
    hide NoNewPlaces, RepsStored;
    NoNewPlacesKeepsStored(w, latest, w'.graph);
  }

  lemma PlacesAreSame(g: GraphState.Graph)
    ensures NoNewPlaces(g, g)
  {
  }

  /** Every operation keeps each located payload the latest one, whatever the graph was used for. */
  lemma StepKeepsStored(h: Mixer, w: World, op: FoldOp, w': World, latest: Latest)
    requires Step(h, w, op, w') && OnlyPlaces(w, op) && Stored(w, latest)
    ensures Stored(w', LatestAfter(w, latest, op))
  {
    hide Stored, NoNewPlaces, Runs.Apply, Register, AddRepresentation, Persist, SafeEvict, Recent;
    match op
    case DoRegister(record, exactBytes, archiveBytes, archiveRef) =>
      RegisterAddsNoPlace(w, record, exactBytes, archiveBytes, archiveRef);
      PlacelessKeepsStored(w, latest, w');
    case DoPersist(p, form, payload) => PersistKeepsStored(w, latest, p, form, payload);
    case DoPromote(p, bytes, codec) =>
      AddWithoutPlace(w.graph, p, Warm(bytes, codec, None), w.graph.generation);
      PlacelessKeepsStored(w, latest, w');
    case DoSafeEvict(p, kind) => EvictKeepsStored(w, latest, p, kind);
    case DoMarkHot(_) => PlacesAreSame(w.graph); PlacelessKeepsStored(w, latest, w');
    case DoMarkCold(_) => PlacesAreSame(w.graph); PlacelessKeepsStored(w, latest, w');
    case DoSetRecentHot(_, _) => PlacesAreSame(w.graph); PlacelessKeepsStored(w, latest, w');
    case OnGraph(g) =>
      GraphOpAddsNoPlace(h, w, g);
      PlacelessKeepsStored(w, latest, w');
  }

  // ---- whole runs -------------------------------------------------------------------------

  lemma {:induction false} RunIsStored(h: Mixer, storeId: Text, states: seq<World>, ops: seq<FoldOp>, n: nat)
    requires Run(h, storeId, states, ops) && n < |states|
    requires forall i :: 0 <= i < n ==> OnlyPlaces(states[i], ops[i])
    ensures Stored(states[n], LatestAt(states, ops, n))
    decreases n
  {
    hide Step, OnlyPlaces, LatestAfter, Stored;
    if n == 0 {
      EmptyIsStored(storeId);
    } else {
      RunIsStored(h, storeId, states, ops, n - 1);
      StepKeepsStored(h, states[n - 1], ops[n - 1], states[n], LatestAt(states, ops, n - 1));
    }
  }

  lemma EmptyIsStored(storeId: Text)
    ensures Stored(World(EMPTY, PageStore.Store(storeId, 0, map[]), {}), map[])
  {
  }

  // ---- the exact condition for loads ---------------------------------------------------------

  /**
   The operation leads to no other bytes: an attached record, an added
   representation, or another kind at the place a persist is about to write, gives
   the latest payload if the store reads it at all.
   */
  ghost predicate KeepsTruth(w: World, latest: Latest, op: FoldOp) {
    match op
    case DoRegister(page, _, _, _) =>
      Attach(w.graph, page).1.Ok? ==> RepsTrue(w.store, latest, page.id, page.representations)
    case DoPersist(p, form, payload) => PersistIsTrue(w, latest, p, form, payload)
    case DoPromote(_, _, _) => true
    case DoSafeEvict(_, _) => true
    case DoMarkHot(_) => true
    case DoMarkCold(_) => true
    case DoSetRecentHot(_, _) => true
    case OnGraph(g) =>
      && (g.DoAttach? && Attach(w.graph, g.record).1.Ok? ==>
            RepsTrue(w.store, latest, g.record.id, g.record.representations))
      && (g.DoAdd? && AddRepresentation(w.graph, g.page, g.rep, g.expected).1.Ok? ==>
            RepTrue(w.store, latest, g.page, g.rep))
  }

  lemma GraphOpKeepsTruthIff(h: Mixer, w: World, latest: Latest, op: Runs.Op)
    requires Runs.Returns(w.graph, op) && Truthful(w, latest)
    ensures Truthful(w.(graph := Runs.Apply(h, w.graph, op)), latest) <==> KeepsTruth(w, latest, OnGraph(op))
  {
    hide Truthful, RepTrue, RepsTrue, Attach, AddRepresentation, NoNewPlaces;
    if op.DoAttach? {
      AttachKeepsTruthIff(w, latest, op.record);
    } else if op.DoAdd? {
      AddKeepsTruthIff(w, latest, op.page, op.rep, op.expected);
    } else {
      hide Runs.Apply;
      GraphOpAddsNoPlace(h, w, op);
      NoNewPlacesKeepsTruth(w, latest, w.(graph := Runs.Apply(h, w.graph, op)));
    }
  }

  lemma HotKeepsTruth(w: World, latest: Latest, w': World)
    requires Truthful(w, latest) && w'.graph == w.graph && w'.store == w.store
    ensures Truthful(w', latest)
  {
  }

  /** Any operation in any world keeps every load to the latest bytes exactly under that condition. */
  lemma StepKeepsTruthIff(h: Mixer, w: World, op: FoldOp, w': World, latest: Latest)
    requires Step(h, w, op, w') && Truthful(w, latest)
    ensures Truthful(w', LatestAfter(w, latest, op)) <==> KeepsTruth(w, latest, op)
  {
    hide Truthful, NoNewPlaces, RepTrue, RepsTrue, PersistIsTrue, Recent;
    hide Runs.Apply, Register, Attach, AddRepresentation, Persist, SafeEvict;
    match op
    case DoRegister(record, exactBytes, archiveBytes, archiveRef) =>
      RegisterKeepsTruthIff(w, latest, record, exactBytes, archiveBytes, archiveRef);
    case DoPersist(p, form, payload) => PersistKeepsTruthIff(w, latest, p, form, payload);
    case DoPromote(p, bytes, codec) =>
      AddWithoutPlace(w.graph, p, Warm(bytes, codec, None), w.graph.generation);
      NoNewPlacesKeepsTruth(w, latest, w');
    case DoSafeEvict(p, kind) => EvictKeepsTruth(w, latest, p, kind);
    case DoMarkHot(_) => HotKeepsTruth(w, latest, w');
    case DoMarkCold(_) => HotKeepsTruth(w, latest, w');
    case DoSetRecentHot(_, _) => HotKeepsTruth(w, latest, w');
    case OnGraph(g) => GraphOpKeepsTruthIff(h, w, latest, g);
  }

  lemma {:induction false} RunIsTruthful(h: Mixer, storeId: Text, states: seq<World>, ops: seq<FoldOp>, n: nat)
    requires Run(h, storeId, states, ops) && n < |states|
    requires forall i :: 0 <= i < n ==> KeepsTruth(states[i], LatestAt(states, ops, i), ops[i])
    ensures Truthful(states[n], LatestAt(states, ops, n))
    decreases n
  {
    hide Step, KeepsTruth, LatestAfter;
    if n > 0 {
      hide Truthful;
      RunIsTruthful(h, storeId, states, ops, n - 1);
      StepKeepsTruthIff(h, states[n - 1], ops[n - 1], states[n], LatestAt(states, ops, n - 1));
    }
  }

  /** In every run of such operations a load gives exactly the latest successfully persisted bytes, or an error. */
  lemma RunLoadsLatestOrFails(
    h: Mixer, storeId: Text, states: seq<World>, ops: seq<FoldOp>, n: nat, p: PageId, kind: Kind
  )
    requires Run(h, storeId, states, ops) && n < |states|
    requires forall i :: 0 <= i < n ==> KeepsTruth(states[i], LatestAt(states, ops, i), ops[i])
    requires Load(states[n], p, kind).Ok?
    ensures (p, kind) in LatestAt(states, ops, n)
            && Load(states[n], p, kind).value == LatestAt(states, ops, n)[(p, kind)]
  {
    hide Step, KeepsTruth, LatestAt, Load, Truthful;
    RunIsTruthful(h, storeId, states, ops, n);
    LoadsLatestOrFails(states[n], LatestAt(states, ops, n), p, kind);
  }

  lemma UnplacedIsTrue(s: PageStore.Store, latest: Latest, p: PageId, reps: seq<Representation>)
    requires Unplaced(reps)
    ensures RepsTrue(s, latest, p, reps)
  {
  }

  lemma NextPlaceIsFree(w: World, latest: Latest, p: PageId, form: Form, payload: Text)
    requires Stored(w, latest)
    ensures PersistIsTrue(w, latest, p, form, payload)
  {
    hide Stored;
    if p in w.graph.pages {
      forall rep | rep in w.graph.pages[p].representations ensures StoredAt(rep) != Some(NextPlace(w, payload)) {
        OldPlaceIsNotNext(w, latest, p, payload, rep);
      }
    }
  }

  lemma OldPlaceIsNotNext(w: World, latest: Latest, p: PageId, payload: Text, rep: Representation)
    requires Stored(w, latest) && p in w.graph.pages && rep in w.graph.pages[p].representations
    ensures StoredAt(rep) != Some(NextPlace(w, payload))
  {
    hide Get, EntriesOk;
    assert RepStored(w.store, latest, p, rep);
  }

  /** Callers who leave places to the persists, short of a saturated offset, always meet it. */
  lemma OnlyPlacesIsEnough(h: Mixer, storeId: Text, states: seq<World>, ops: seq<FoldOp>, n: nat)
    requires Run(h, storeId, states, ops) && n < |ops|
    requires forall i :: 0 <= i <= n ==> OnlyPlaces(states[i], ops[i])
    ensures KeepsTruth(states[n], LatestAt(states, ops, n), ops[n])
  {
    var w, latest, op := states[n], LatestAt(states, ops, n), ops[n];
    assert OnlyPlaces(w, op);
    hide Run, LatestAt, Stored, Unplaced, RepsTrue, PersistIsTrue, Attach;
    RunIsStored(h, storeId, states, ops, n);
    match op
    case DoRegister(record, _, _, _) => UnplacedIsTrue(w.store, latest, record.id, record.representations);
    case DoPersist(p, form, payload) => NextPlaceIsFree(w, latest, p, form, payload);
    case OnGraph(g) =>
      if g.DoAttach? {
        UnplacedIsTrue(w.store, latest, g.record.id, g.record.representations);
      }
    case _ =>
  }

  // ---- failed persists --------------------------------------------------------------------------

  lemma MorePagesKeepEntries(w: World, w': World)
    requires EntriesAttached(w) && w.graph.pages.Keys <= w'.graph.pages.Keys
    requires w'.store.entries.Keys <= w.store.entries.Keys
    ensures EntriesAttached(w')
  {
    hide Key;
    forall k | k in w'.store.entries ensures exists p :: p in w'.graph.pages && Key(p) == k {
      var p :| p in w.graph.pages && Key(p) == k;
      assert p in w'.graph.pages;
    }
  }

  lemma PersistKeepsEntries(w: World, p: PageId, form: Form, payload: Text)
    requires EntriesAttached(w)
    ensures EntriesAttached(Persist(w, p, form, payload).0)
  {
    var (w', r) := Persist(w, p, form, payload);
    if r.Err? {
      FailedPersistLeavesEntries(w, p, form, payload);
      hide Persist, Key;
    } else {
      hide Key, Added;
      forall k | k in w'.store.entries ensures exists q :: q in w'.graph.pages && Key(q) == k {
        if k == Key(p) {
          assert p in w'.graph.pages;
        } else {
          var q :| q in w.graph.pages && Key(q) == k;
          assert q in w'.graph.pages;
        }
      }
    }
  }

  lemma RegisterKeepsPages(w: World, page: Record, exactBytes: u64, archiveBytes: u64, archiveRef: Text)
    ensures var w' := Register(w, page, exactBytes, archiveBytes, archiveRef).0;
            w.graph.pages.Keys <= w'.graph.pages.Keys && w'.store == w.store
  {
    hide Added, Attachable;
  }

  /** No operation leaves an entry without its page. */
  lemma StepKeepsEntries(h: Mixer, w: World, op: FoldOp, w': World)
    requires Step(h, w, op, w') && EntriesAttached(w)
    ensures EntriesAttached(w')
  {
    hide EntriesAttached, Persist, Register, Key, Added, Find, Position, Runs.Apply;
    match op
    case DoRegister(record, exactBytes, archiveBytes, archiveRef) =>
      RegisterKeepsPages(w, record, exactBytes, archiveBytes, archiveRef);
      MorePagesKeepEntries(w, w');
    case DoPersist(p, form, payload) => PersistKeepsEntries(w, p, form, payload);
    case DoPromote(_, _, _) => MorePagesKeepEntries(w, w');
    case DoSafeEvict(_, _) => MorePagesKeepEntries(w, w');
    case DoMarkHot(_) => MorePagesKeepEntries(w, w');
    case DoMarkCold(_) => MorePagesKeepEntries(w, w');
    case DoSetRecentHot(_, _) => MorePagesKeepEntries(w, w');
    case OnGraph(g) =>
      PagesStay(h, w.graph, g);
      MorePagesKeepEntries(w, w');
  }

  lemma {:induction false} RunKeepsEntries(h: Mixer, storeId: Text, states: seq<World>, ops: seq<FoldOp>, n: nat)
    requires Run(h, storeId, states, ops) && n < |states|
    ensures EntriesAttached(states[n])
    decreases n
  {
    hide Step;
    if n > 0 {
      hide EntriesAttached;
      RunKeepsEntries(h, storeId, states, ops, n - 1);
      StepKeepsEntries(h, states[n - 1], ops[n - 1], states[n]);
    }
  }

  /** In every run, a persist fails exactly for no bytes or no page, and then changes no page and no entry. */
  lemma RunFailedPersistIsClean(h: Mixer, storeId: Text, states: seq<World>, ops: seq<FoldOp>, n: nat,
        p: PageId, form: Form, payload: Text)
    requires Run(h, storeId, states, ops) && n < |states|
    ensures var w := states[n];
            var (w', r) := Persist(w, p, form, payload);
            && (r.Err? <==> payload == [] || p !in w.graph.pages)
            && (r.Err? ==> w'.graph == w.graph && w'.store.entries == w.store.entries)
  {
    hide Step, EntriesAttached, Persist;
    RunKeepsEntries(h, storeId, states, ops, n);
    PersistSucceedsIff(states[n], p, form, payload);
    if Persist(states[n], p, form, payload).1.Err? {
      FailedPersistLeavesEntries(states[n], p, form, payload);
    }
  }

  lemma PagesStay(h: Mixer, g: GraphState.Graph, op: Runs.Op)
    requires Runs.Returns(g, op)
    ensures g.pages.Keys <= Runs.Apply(h, g, op).pages.Keys
  {
    hide NodeId, ClosureOf, ClosureRoot, WithChild, ExtendsTokens, RetainFrom, ReleaseFrom, Ends, LeaseId, Find;
    hide Position, Added;
  }

  lemma StepKeepsHotAttached(h: Mixer, w: World, op: FoldOp, w': World)
    requires Step(h, w, op, w') && w.hot <= w.graph.pages.Keys
    ensures w'.hot <= w'.graph.pages.Keys
  {
    hide Added, Find, Position, Put, Remove;
    if op.OnGraph? {
      hide Runs.Apply;
      PagesStay(h, w.graph, op.op);
    }
  }

  /** In every run hot pages are attached pages. */
  lemma {:induction false} RunHotAreAttached(h: Mixer, storeId: Text, states: seq<World>, ops: seq<FoldOp>, n: nat)
    requires Run(h, storeId, states, ops) && n < |states|
    ensures states[n].hot <= states[n].graph.pages.Keys
    decreases n
  {
    hide Step;
    if n > 0 {
      RunHotAreAttached(h, storeId, states, ops, n - 1);
      StepKeepsHotAttached(h, states[n - 1], ops[n - 1], states[n]);
    }
  }

  /** So the recent-window policy leaves hot exactly the recent pages that have an exact representation. */
  lemma RecentAreHot(w: World, currentToken: u64, window: u64, p: PageId)
    requires w.hot <= w.graph.pages.Keys && window > 0
    ensures p in SetRecentHot(w, currentToken, window).0.hot <==> Recent(w.graph, currentToken, window, p)
  {
  }

  // ---- evictions ------------------------------------------------------------------------------

  /** An eviction succeeds exactly when the graph allows it and the bytes load or were never stored. */
  lemma SafeEvictSucceedsIff(h: Mixer, w: World, p: PageId, kind: Kind)
    requires Leased(h, w.graph.pages, w.graph.leases)
    ensures SafeEvict(w, p, kind).1.Ok?
            <==> && p in w.graph.pages && LeasesOn(w.graph.leases, p) == {} && Has(w.graph.pages[p], kind)
                 && (Load(w, p, kind).Ok? || Load(w, p, kind) == Err(NoLocation))
  {
    hide Leased, LeasesOn, Key;
    EvictSucceedsIff(h, w.graph, p, kind, w.graph.generation);
  }

  /**
   Whenever the graph allows it the first representation of the kind goes, even where
   the store then refuses and keeps its entries; another is left exactly if there were two.
   */
  lemma SafeEvictDrops(w: World, p: PageId, kind: Kind)
    requires Evict(w.graph, p, kind, w.graph.generation).1.Ok?
    ensures var (w', r) := SafeEvict(w, p, kind);
            && (Load(w', p, kind) == Err(NoRepresentation) <==> Single(w.graph.pages[p].representations, kind))
            && (r.Err? ==> w'.store == w.store && r.error.InStore?)
  {
    EvictRemovesKind(w.graph, p, kind, w.graph.generation, kind);
    hide OneEach, Single, Position, Find, Removed, Key;
  }

  // ---- one representation of a kind ---------------------------------------------------------------

  /** The operation attaches no record with two representations of a kind. */
  ghost predicate AttachesOneEach(op: FoldOp) {
    && (op.DoRegister? ==> OneEach(op.record.representations))
    && (op.OnGraph? && op.op.DoAttach? ==> OneEach(op.op.record.representations))
  }

  lemma AddKeepsOneEachKind(g: GraphState.Graph, p: PageId, rep: Representation, expected: u64)
    requires Runs.OneEachKind(g)
    ensures Runs.OneEachKind(AddRepresentation(g, p, rep, expected).0)
  {
    hide Added, OneEach;
    if p in g.pages {
      AddedKeepsOneEach(g.pages[p].representations, rep);
    }
  }

  lemma RegisterKeepsOneEach(w: World, page: Record, exactBytes: u64, archiveBytes: u64, archiveRef: Text)
    requires Runs.OneEachKind(w.graph) && OneEach(page.representations)
    ensures Runs.OneEachKind(Register(w, page, exactBytes, archiveBytes, archiveRef).0.graph)
  {
    hide OneEach, Runs.OneEachKind, Attach, AddRepresentation;
    Runs.AttachKeepsOneEachIff(w.graph, page);
    var g1 := Attach(w.graph, page).0;
    var hot, archive := HotQ8(exactBytes, None), Archive(archiveBytes, archiveRef, None);
    AddKeepsOneEachKind(g1, page.id, hot, g1.generation);
    AddKeepsOneEachKind(AddRepresentation(g1, page.id, hot, g1.generation).0, page.id, archive, g1.generation);
  }

  lemma PersistKeepsOneEach(w: World, p: PageId, form: Form, payload: Text)
    requires Runs.OneEachKind(w.graph)
    ensures Runs.OneEachKind(Persist(w, p, form, payload).0.graph)
  {
    hide Runs.OneEachKind, AddRepresentation, Key, Get;
    var stored := Put(w.store, p, payload, w.graph.generation).1;
    if stored.Ok? {
      AddKeepsOneEachKind(w.graph, p, form.At(stored.value), w.graph.generation);
    }
  }

  lemma EvictKeepsOneEachKind(g: GraphState.Graph, p: PageId, kind: Kind)
    requires Runs.OneEachKind(g)
    ensures Runs.OneEachKind(Evict(g, p, kind, g.generation).0)
  {
    hide OneEach, Evict;
    if Evict(g, p, kind, g.generation).1.Ok? {
      EvictedPage(g, p, kind);
    } else {
      EvictedNothing(g, p, kind);
    }
  }

  lemma EvictedNothing(g: GraphState.Graph, p: PageId, kind: Kind)
    ensures Evict(g, p, kind, g.generation).1.Err? ==> Evict(g, p, kind, g.generation).0 == g
  {
    hide Position;
  }

  lemma EvictedPage(g: GraphState.Graph, p: PageId, kind: Kind)
    requires Evict(g, p, kind, g.generation).1.Ok?
    ensures p in g.pages
    ensures var g' := Evict(g, p, kind, g.generation).0;
            g'.pages == g.pages[p := if p in g'.pages then g'.pages[p] else g.pages[p]]
            && p in g'.pages && (OneEach(g.pages[p].representations) ==> OneEach(g'.pages[p].representations))
  {
    EvictRemovesKind(g, p, kind, g.generation, kind);
    hide OneEach, Single, Find;
  }

  lemma StepKeepsOneEach(h: Mixer, w: World, op: FoldOp, w': World)
    requires Step(h, w, op, w') && AttachesOneEach(op) && Runs.OneEachKind(w.graph)
    ensures Runs.OneEachKind(w'.graph)
  {
    hide Runs.OneEachKind, OneEach, Persist, Register, Evict, Remove, AddRepresentation, Runs.Apply;
    match op
    case DoRegister(record, exactBytes, archiveBytes, archiveRef) =>
      RegisterKeepsOneEach(w, record, exactBytes, archiveBytes, archiveRef);
    case DoPersist(p, form, payload) => PersistKeepsOneEach(w, p, form, payload);
    case DoPromote(p, bytes, codec) =>
      AddKeepsOneEachKind(w.graph, p, Warm(bytes, codec, None), w.graph.generation);
    case DoSafeEvict(p, kind) => EvictKeepsOneEachKind(w.graph, p, kind);
    case OnGraph(g) => Runs.StepKeepsOneEachIff(h, w.graph, g, w'.graph);
    case _ =>
  }

  /** In every run that attaches no record with two representations of a kind, no page ever has two. */
  lemma {:induction false} RunHasOneEach(h: Mixer, storeId: Text, states: seq<World>, ops: seq<FoldOp>, n: nat)
    requires Run(h, storeId, states, ops) && n < |states|
    requires forall i :: 0 <= i < n ==> AttachesOneEach(ops[i])
    ensures Runs.OneEachKind(states[n].graph)
    ensures forall p, kind :: p in states[n].graph.pages ==> Single(states[n].graph.pages[p].representations, kind)
    decreases n
  {
    hide Step, AttachesOneEach;
    if n > 0 {
      RunHasOneEach(h, storeId, states, ops, n - 1);
      StepKeepsOneEach(h, states[n - 1], ops[n - 1], states[n]);
    }
    forall p, kind | p in states[n].graph.pages ensures Single(states[n].graph.pages[p].representations, kind) {
      assert OneEach(states[n].graph.pages[p].representations);
    }
  }

  // ---- where the code gives other bytes, or keeps what it was told to drop -------------------

  /** Once the offset has saturated two places can be equal, and the wrong bytes come back. */
  lemma SaturatedPlacesAreConfused(w: World, p: PageId, codec: Text, quality: Certificate, a: Text, b: Text)
    requires p in w.graph.pages && w.store.nextOffset == U64_MAX && |a| == |b| > 0
    ensures var (w1, r1) := Persist(w, p, AsLatent(codec, quality), a);
            var (w2, r2) := Persist(w1, p, AsLossless, b);
            r1.Ok? && r2.Ok? && Load(w2, p, ContextFoldLatent) == Ok(b)
  {
    hide Key, Added;
    var (w1, r1) := Persist(w, p, AsLatent(codec, quality), a);
    var r2 := Persist(w1, p, AsLossless, b).1;
    FindAdded(w.graph.pages[p].representations, AsLatent(codec, quality).At(r1.value), ContextFoldLatent);
    FindAdded(w1.graph.pages[p].representations, AsLossless.At(r2.value), ContextFoldLatent);
  }

  /**
   One page has one entry: a lossless persist takes the place of the latent
   payload. Evicting the latent representation then drops it and reports that the
   store refused, while the lossless payload stays loadable.
   */
  lemma EvictAfterShadowingFails(h: Mixer, w: World, p: PageId, codec: Text, quality: Certificate, a: Text, b: Text)
    requires Leased(h, w.graph.pages, w.graph.leases) && p in w.graph.pages && LeasesOn(w.graph.leases, p) == {}
    requires OneEach(w.graph.pages[p].representations) && a != [] && b != [] && w.store.nextOffset + |a| < U64_MAX
    ensures var (w1, r1) := Persist(w, p, AsLatent(codec, quality), a);
            var (w2, r2) := Persist(w1, p, AsLossless, b);
            var (w3, r3) := SafeEvict(w2, p, ContextFoldLatent);
            && r1.Ok? && r2.Ok? && r3 == Err(InStore(StoreRejected))
            && Load(w3, p, ContextFoldLatent) == Err(NoRepresentation) && Load(w3, p, LosslessColdPage) == Ok(b)
  {
    hide Key, Added, OneEach, Position, Removed;
    assert CountsOk(w.graph.leases, p, w.graph.pages[p]);
    var (w1, r1) := Persist(w, p, AsLatent(codec, quality), a);
    var (w2, r2) := Persist(w1, p, AsLossless, b);
    TwoFormsAdded(w.graph.pages[p].representations, AsLatent(codec, quality).At(r1.value), AsLossless.At(r2.value));
    var reps := w2.graph.pages[p].representations;
    var i := Position(reps, ContextFoldLatent).value;
    FindRemoved(reps, i, ContextFoldLatent);
    FindRemoved(reps, i, LosslessColdPage);
  }

  lemma TwoFormsAdded(reps: seq<Representation>, latent: Representation, lossless: Representation)
    requires OneEach(reps) && latent.Latent? && lossless.Lossless?
    ensures var reps' := Added(Added(reps, latent), lossless);
            OneEach(reps') && Find(reps', ContextFoldLatent) == Some(latent)
                && Find(reps', LosslessColdPage) == Some(lossless)
            && Position(reps', ContextFoldLatent).Some?
  {
    hide Added, OneEach;
    FindAdded(reps, latent, ContextFoldLatent);
    FindAdded(Added(reps, latent), lossless, ContextFoldLatent);
    FindAdded(Added(reps, latent), lossless, LosslessColdPage);
    AddedKeepsOneEach(reps, latent);
    AddedKeepsOneEach(Added(reps, latent), lossless);
  }
}
