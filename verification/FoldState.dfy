/** The controller over a graph and a page store, as a value, and what its runs keep. */
module FoldState {
  import opened Wrappers
  import opened Arithmetic
  import opened Digests
  import opened PageKey
  import opened PageRecord
  import opened GraphState
  import opened PageStore

  datatype FoldError = InGraph(graph: GraphError) | InStore(store: StoreError) | NoRepresentation | NoLocation

  datatype World = World(graph: GraphState.Graph, store: PageStore.Store, hot: set<PageId>)

  /** The two kinds of representation that the controller writes to the store. */
  datatype Form = AsLatent(codec: Text, quality: Certificate) | AsLossless {
    function Kind(): Kind {
      match this
      case AsLatent(_, _) => ContextFoldLatent
      case AsLossless => LosslessColdPage
    }

    function At(location: Location): Representation {
      match this
      case AsLatent(codec, quality) => Latent(codec, location.length, quality, Some(location))
      case AsLossless => Lossless(location.length, Some(location))
    }
  }

  /** Attach, then the exact representation, which marks the page hot, then the archive. */
  function Register(w: World, page: Record, exactBytes: u64, archiveBytes: u64, archiveRef: Text)
    : (World, Result<(), FoldError>)
  {
    var (g1, r1) := Attach(w.graph, page);
    if r1.Err? then (w.(graph := g1), Err(InGraph(r1.error)))
    else
      var (g2, r2) := AddRepresentation(g1, page.id, HotQ8(exactBytes, None), g1.generation);
      if r2.Err? then (w.(graph := g2), Err(InGraph(r2.error)))
      else
        var (g3, r3) := AddRepresentation(g2, page.id, Archive(archiveBytes, archiveRef, None), g1.generation);
        (w.(graph := g3, hot := w.hot + {page.id}), if r3.Err? then Err(InGraph(r3.error)) else Ok(()))
  }

  /** Store first, then record the place; if the graph refuses, take the payload back out. */
  function Persist(w: World, p: PageId, form: Form, payload: Text): (World, Result<Location, FoldError>) {
    var (s, stored) := Put(w.store, p, payload, w.graph.generation);
    if stored.Err? then (w.(store := s), Err(InStore(stored.error)))
    else
      var (g, added) := AddRepresentation(w.graph, p, form.At(stored.value), w.graph.generation);
      if added.Err? then (w.(graph := g, store := Remove(s, p, stored.value).0), Err(InGraph(added.error)))
      else (w.(graph := g, store := s), Ok(stored.value))
  }

  function Promote(w: World, p: PageId, bytes: u64, codec: Text): (World, Result<(), FoldError>) {
    var (g, r) := AddRepresentation(w.graph, p, Warm(bytes, codec, None), w.graph.generation);
    (w.(graph := g), if r.Err? then Err(InGraph(r.error)) else Ok(()))
  }

  /** Where a representation's bytes are stored, for the two kinds that have any. */
  function StoredAt(rep: Representation): Option<Location> {
    match rep
    case Latent(_, _, _, place) => place
    case Lossless(_, place) => place
    case HotQ8(_, _) => None
    case Warm(_, _, _) => None
    case Archive(_, _, _) => None
    case Scratch(_, _) => None
  }

  function Load(w: World, p: PageId, kind: Kind): Result<Text, FoldError> {
    if p !in w.graph.pages then Err(InGraph(UnknownPage))
    else
      match Find(w.graph.pages[p].representations, kind)
      case None => Err(NoRepresentation)
      case Some(rep) =>
        match StoredAt(rep)
        case None => Err(NoLocation)
        case Some(location) =>
          match Get(w.store, p, location)
          case Err(e) => Err(InStore(e))
          case Ok(bytes) => Ok(bytes)
  }

  /** The representation goes first; a store that then refuses leaves it gone. */
  function SafeEvict(w: World, p: PageId, kind: Kind): (World, Result<(), FoldError>) {
    var (g, evicted) := Evict(w.graph, p, kind, w.graph.generation);
    if evicted.Err? then (w.(graph := g), Err(InGraph(evicted.error)))
    else
      match StoredAt(evicted.value)
      case None => (w.(graph := g), Ok(()))
      case Some(location) =>
        var (s, removed) := Remove(w.store, p, location);
        (w.(graph := g, store := s), if removed.Err? then Err(InStore(removed.error)) else Ok(()))
  }

  // ---- hot pages ---------------------------------------------------------------------

  function MarkHot(w: World, p: PageId): (World, Result<(), FoldError>) {
    if p !in w.graph.pages then (w, Err(InGraph(UnknownPage))) else (w.(hot := w.hot + {p}), Ok(()))
  }

  function MarkCold(w: World, p: PageId): (World, Result<(), FoldError>) {
    if p !in w.graph.pages then (w, Err(InGraph(UnknownPage))) else (w.(hot := w.hot - {p}), Ok(()))
  }

  /** A page that ends inside the recent window and still has its exact representation. */
  predicate Recent(g: GraphState.Graph, currentToken: u64, window: u64, p: PageId) {
    && p in g.pages && p.tokenEnd > Max(currentToken - window, 0)
    && Find(g.pages[p].representations, ExactHotQ8).Some?
  }

  /** Attached pages are hot exactly when recent; what is not attached keeps its mark. */
  function SetRecentHot(w: World, currentToken: u64, window: u64): (World, Result<(), FoldError>) {
    if window == 0 then (w, Err(InGraph(InvalidPage)))
    else
      (w.(hot := (w.hot - w.graph.pages.Keys) + set p | p in w.graph.pages
          && Recent(w.graph, currentToken, window, p)), Ok(()))
  }

  // ---- which bytes are where ---------------------------------------------------------

  /** The bytes of the latest successful persist of each page and kind. */
  type Latest = map<(PageId, Kind), Text>

  /** A stored representation lies below the next offset, and what it locates is its latest payload. */
  ghost predicate RepStored(s: PageStore.Store, latest: Latest, p: PageId, rep: Representation) {
    StoredAt(rep).Some? ==>
      var location := StoredAt(rep).value;
      && location.offset < s.nextOffset && (p, rep.Kind()) in latest
      && (Get(s, p, location).Ok? ==> Get(s, p, location).value == latest[(p, rep.Kind())])
  }

  ghost predicate RepsStored(s: PageStore.Store, latest: Latest, p: PageId, reps: seq<Representation>) {
    forall rep :: rep in reps ==> RepStored(s, latest, p, rep)
  }

  /** Every entry belongs to an attached page. */
  ghost predicate EntriesAttached(w: World) {
    forall k :: k in w.store.entries ==> exists p :: p in w.graph.pages && Key(p) == k
  }

  /** And lies below the next offset. */
  ghost predicate EntriesOk(w: World) {
    EntriesAttached(w) && forall k :: k in w.store.entries ==> w.store.entries[k].0.offset < w.store.nextOffset
  }

  ghost predicate Stored(w: World, latest: Latest) {
    && EntriesOk(w)
    && forall p :: p in w.graph.pages ==> RepsStored(w.store, latest, p, w.graph.pages[p].representations)
  }

  // ---- a persist ------------------------------------------------------------------------

  /** The payload just put is the page's entry, and all other pages' entries stay. */
  lemma PutThenGet(s: PageStore.Store, p: PageId, payload: Text, generation: u64, q: PageId, location: Location)
    requires payload != []
    ensures var (s', r) := Put(s, p, payload, generation);
            && Get(s', p, r.value) == Ok(payload)
            && (q != p ==> Get(s', q, location) == Get(s, q, location))
            && (location.offset < s.nextOffset ==> Get(s', p, location).Err?)
  {
    hide Key;
    if Key(p) == Key(q) {
      KeyInjective(p, q);
    }
  }

  lemma PutKeepsReps(
    s: PageStore.Store, latest: Latest, p: PageId, payload: Text, generation: u64, kind: Kind, q: PageId,
    rep: Representation
  )
    requires payload != [] && s.nextOffset < U64_MAX && RepStored(s, latest, q, rep) && (q == p ==> rep.Kind() != kind)
    ensures RepStored(Put(s, p, payload, generation).0, latest[(p, kind) := payload], q, rep)
  {
    hide Get;
    if StoredAt(rep).Some? {
      PutThenGet(s, p, payload, generation, q, StoredAt(rep).value);
    }
  }

  lemma NewRepStored(s: PageStore.Store, latest: Latest, p: PageId, form: Form, payload: Text, generation: u64)
    requires payload != [] && s.nextOffset < U64_MAX
    ensures var (s', r) := Put(s, p, payload, generation);
            RepStored(s', latest[(p, form.Kind()) := payload], p, form.At(r.value))
                && form.At(r.value).Kind() == form.Kind()
  {
    PutThenGet(s, p, payload, generation, p, Location(s.id, s.nextOffset, |payload|, generation));
    hide Get;
  }

  lemma EntriesAfterPut(w: World, p: PageId, payload: Text, g: GraphState.Graph)
    requires EntriesOk(w) && payload != [] && w.store.nextOffset < U64_MAX && p in g.pages
             && g.pages.Keys == w.graph.pages.Keys
    ensures EntriesOk(w.(graph := g, store := Put(w.store, p, payload, w.graph.generation).0))
  {
    hide Key;
    var s := Put(w.store, p, payload, w.graph.generation).0;
    forall k | k in s.entries ensures s.entries[k].0.offset < s.nextOffset && exists q :: q in g.pages && Key(q) == k {
      if k != Key(p) {
        var q :| q in w.graph.pages && Key(q) == k;
        assert q in g.pages;
      }
    }
  }

  /** No page, no entry: a persist that the graph refuses leaves every entry as it was. */
  lemma FailedPersistLeavesEntries(w: World, p: PageId, form: Form, payload: Text)
    requires EntriesAttached(w) && Persist(w, p, form, payload).1.Err?
    ensures var w' := Persist(w, p, form, payload).0; w'.graph == w.graph && w'.store.entries == w.store.entries
    ensures payload == [] || p !in w.graph.pages
  {
    hide Key;
    if payload != [] {
      if Key(p) in w.store.entries {
        var q :| q in w.graph.pages && Key(q) == Key(p);
        KeyInjective(p, q);
      }
      FailedPersistIffNew(w, p, form, payload);
    }
  }

  /** In any world, that entry is lost if there was one: nothing is lost exactly when the key was absent. */
  lemma FailedPersistIffNew(w: World, p: PageId, form: Form, payload: Text)
    requires payload != [] && p !in w.graph.pages
    ensures var (w', r) := Persist(w, p, form, payload);
            && r == Err(InGraph(UnknownPage)) && w'.graph == w.graph && w'.store.entries == w.store.entries - {Key(p)}
            && (w'.store.entries == w.store.entries <==> Key(p) !in w.store.entries)
  {
    hide Key;
    assert w.store.entries[Key(p) := (Location(w.store.id, w.store.nextOffset, |payload|, w.graph.generation),
                                      payload)] - {Key(p)}
        == w.store.entries - {Key(p)};
  }

  lemma PersistKeepsStored(w: World, latest: Latest, p: PageId, form: Form, payload: Text)
    requires Stored(w, latest) && w.store.nextOffset < U64_MAX
    ensures var (w', r) := Persist(w, p, form, payload);
            Stored(w', if r.Ok? then latest[(p, form.Kind()) := payload] else latest)
  {
    hide Key, Get, Added, Without, RepStored, EntriesOk;
    var (w', r) := Persist(w, p, form, payload);
    if r.Ok? {
      var latest' := latest[(p, form.Kind()) := payload];
      EntriesAfterPut(w, p, payload, w'.graph);
      NewRepStored(w.store, latest, p, form, payload, w.graph.generation);
      forall q, rep | q in w'.graph.pages && rep in w'.graph.pages[q].representations
        ensures RepStored(w'.store, latest', q, rep)
      {
        RepAfterAdd(w.graph.pages[q].representations, form.At(r.value), rep);
        if q != p || rep != form.At(r.value) {
          PutKeepsReps(w.store, latest, p, payload, w.graph.generation, form.Kind(), q, rep);
        }
      }
    } else {
      FailedPersistKeepsStored(w, latest, p, form, payload);
    }
  }

  lemma RepAfterAdd(reps: seq<Representation>, added: Representation, rep: Representation)
    ensures rep in Added(reps, added) <==> rep == added || (rep in reps && rep.Kind() != added.Kind())
  {
  }

  lemma FailedPersistKeepsStored(w: World, latest: Latest, p: PageId, form: Form, payload: Text)
    requires Stored(w, latest) && w.store.nextOffset < U64_MAX && Persist(w, p, form, payload).1.Err?
    ensures Stored(Persist(w, p, form, payload).0, latest)
  {
    hide Key;
    var w' := Persist(w, p, form, payload).0;
    FailedPersistLeavesEntries(w, p, form, payload);
    assert w'.store.nextOffset >= w.store.nextOffset;
    hide Persist;
    forall q, rep | q in w.graph.pages && rep in w.graph.pages[q].representations
      ensures RepStored(w'.store, latest, q, rep)
    {
      assert RepStored(w.store, latest, q, rep);
    }
  }

  /** What a successful persist makes loadable: its own payload, and no other kind of that page. */
  lemma PersistedIsLoaded(w: World, latest: Latest, p: PageId, form: Form, payload: Text, q: PageId, kind: Kind)
    requires Stored(w, latest) && w.store.nextOffset < U64_MAX && Persist(w, p, form, payload).1.Ok?
    ensures var w' := Persist(w, p, form, payload).0;
            && (q != p ==> Load(w', q, kind) == Load(w, q, kind))
            && (q == p && kind == form.Kind() ==> Load(w', q, kind) == Ok(payload))
            && (q == p && kind != form.Kind() ==> Load(w', q, kind).Err?)
  {
    hide Get, Put, Added, EntriesOk;
    var (w', r) := Persist(w, p, form, payload);
    assert payload != [] by { PutRefusesEmpty(w.store, p, w.graph.generation); }
    FindAdded(w.graph.pages[p].representations, form.At(r.value), kind);
    PutThenGet(w.store, p, payload, w.graph.generation, q, r.value);
    if q in w.graph.pages && Find(w.graph.pages[q].representations, kind).Some? {
      var rep := Find(w.graph.pages[q].representations, kind).value;
      if StoredAt(rep).Some? {
        OldPlaces(w, latest, p, payload, q, rep);
      }
    }
  }

  /** Old places read as before on other pages, and no longer on this one. */
  lemma OldPlaces(w: World, latest: Latest, p: PageId, payload: Text, q: PageId, rep: Representation)
    requires Stored(w, latest) && payload != [] && q in w.graph.pages && rep in w.graph.pages[q].representations
             && StoredAt(rep).Some?
    ensures var s' := Put(w.store, p, payload, w.graph.generation).0;
            && (q != p ==> Get(s', q, StoredAt(rep).value) == Get(w.store, q, StoredAt(rep).value))
            && Get(s', p, StoredAt(rep).value).Err?
  {
    hide EntriesOk, Get, Put;
    assert RepStored(w.store, latest, q, rep);
    PutThenGet(w.store, p, payload, w.graph.generation, q, StoredAt(rep).value);
  }

  lemma PutRefusesEmpty(s: PageStore.Store, p: PageId, generation: u64)
    ensures Put(s, p, [], generation).1.Err?
  {
  }

  // ---- the other operations ------------------------------------------------------------

  /** A graph whose pages stay, with only representations of old pages or without a place. */
  ghost predicate NoNewPlaces(g: GraphState.Graph, g': GraphState.Graph) {
    && g.pages.Keys <= g'.pages.Keys
    && forall p, rep :: p in g'.pages && rep in g'.pages[p].representations ==>
         StoredAt(rep).None? || (p in g.pages && rep in g.pages[p].representations)
  }

  lemma NoNewPlacesKeepsStored(w: World, latest: Latest, g': GraphState.Graph)
    requires Stored(w, latest) && NoNewPlaces(w.graph, g')
    ensures Stored(w.(graph := g'), latest)
  {
    hide Key, Get;
    var w' := w.(graph := g');
    forall p, rep | p in g'.pages && rep in g'.pages[p].representations ensures RepStored(w.store, latest, p, rep) {
      if StoredAt(rep).Some? {
        assert RepStored(w.store, latest, p, rep);
      }
    }
    forall k | k in w.store.entries ensures exists p :: p in g'.pages && Key(p) == k {
      var p :| p in w.graph.pages && Key(p) == k;
      assert p in g'.pages;
    }
  }

  lemma AddWithoutPlace(g: GraphState.Graph, p: PageId, rep: Representation, expected: u64)
    requires StoredAt(rep).None?
    ensures NoNewPlaces(g, AddRepresentation(g, p, rep, expected).0)
  {
    hide Added;
    if p in g.pages {
      forall x
        ensures x in Added(g.pages[p].representations, rep)
                <==> x == rep || (x in g.pages[p].representations && x.Kind() != rep.Kind())
      {
        RepAfterAdd(g.pages[p].representations, rep, x);
      }
    }
  }

  lemma EvictAddsNoPlace(g: GraphState.Graph, p: PageId, kind: Kind, expected: u64)
    ensures NoNewPlaces(g, Evict(g, p, kind, expected).0)
  {
    hide Position, StoredAt;
  }

  /** Taking an entry out of the store can only turn loads into errors. */
  lemma RemoveKeepsStored(w: World, latest: Latest, p: PageId, location: Location)
    requires Stored(w, latest)
    ensures Stored(w.(store := Remove(w.store, p, location).0), latest)
  {
    hide Key;
    var s := Remove(w.store, p, location).0;
    forall q, rep | q in w.graph.pages && rep in w.graph.pages[q].representations ensures RepStored(s, latest, q, rep) {
      assert RepStored(w.store, latest, q, rep);
    }
  }

  lemma EvictKeepsStored(w: World, latest: Latest, p: PageId, kind: Kind)
    requires Stored(w, latest)
    ensures Stored(SafeEvict(w, p, kind).0, latest)
  {
    hide Stored, Evict, Remove, NoNewPlaces;
    var (g, evicted) := Evict(w.graph, p, kind, w.graph.generation);
    EvictAddsNoPlace(w.graph, p, kind, w.graph.generation);
    NoNewPlacesKeepsStored(w, latest, g);
    if evicted.Ok? && StoredAt(evicted.value).Some? {
      RemoveKeepsStored(w.(graph := g), latest, p, StoredAt(evicted.value).value);
    }
  }
}
