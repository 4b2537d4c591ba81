/**
 When loads give the latest bytes: for each operation of the controller the exact
 condition, in any world, whatever its store places and offset are.
 */
module FoldTruth {
  import opened Wrappers
  import opened Arithmetic
  import opened Digests
  import opened PageKey
  import opened PageRecord
  import opened GraphState
  import opened PageStore
  import opened FoldState

  /** If the store still reads this representation, it gives the latest payload of its page and kind. */
  ghost predicate RepTrue(s: PageStore.Store, latest: Latest, p: PageId, rep: Representation) {
    StoredAt(rep).Some? && Get(s, p, StoredAt(rep).value).Ok? ==>
      (p, rep.Kind()) in latest && Get(s, p, StoredAt(rep).value).value == latest[(p, rep.Kind())]
  }

  ghost predicate RepsTrue(s: PageStore.Store, latest: Latest, p: PageId, reps: seq<Representation>) {
    forall rep :: rep in reps ==> RepTrue(s, latest, p, rep)
  }

  /** Whatever the store still reads is the latest payload. */
  ghost predicate Truthful(w: World, latest: Latest) {
    forall p :: p in w.graph.pages ==> RepsTrue(w.store, latest, p, w.graph.pages[p].representations)
  }

  /** In such a world a load gives the latest persisted bytes or an error, never other bytes. */
  lemma LoadsLatestOrFails(w: World, latest: Latest, p: PageId, kind: Kind)
    requires Truthful(w, latest) && Load(w, p, kind).Ok?
    ensures (p, kind) in latest && Load(w, p, kind).value == latest[(p, kind)]
  {
    hide Get;
    var rep := Find(w.graph.pages[p].representations, kind).value;
    assert RepTrue(w.store, latest, p, rep);
  }

  // ---- a persist ------------------------------------------------------------------------

  /** The place the next persist of this payload writes to. */
  function NextPlace(w: World, payload: Text): Location {
    Location(w.store.id, w.store.nextOffset, |payload|, w.graph.generation)
  }

  /**
   After a persist another kind of that page loads exactly if its place is the one just written, and then it gives
   the payload.
   */
  lemma OtherKindLoadsIff(w: World, p: PageId, form: Form, payload: Text, kind: Kind)
    requires Persist(w, p, form, payload).1.Ok? && kind != form.Kind()
    ensures var found, loaded := Find(w.graph.pages[p].representations, kind),
            Load(Persist(w, p, form, payload).0, p, kind);
            && (loaded.Ok? <==> found.Some? && StoredAt(found.value) == Some(NextPlace(w, payload)))
            && (loaded.Ok? ==> loaded.value == payload)
  {
    hide Key, Added;
    PutRefusesEmpty(w.store, p, w.graph.generation);
    FindAdded(w.graph.pages[p].representations, form.At(NextPlace(w, payload)), kind);
  }

  /** No other kind of the page has the place about to be written, unless its latest payload is the same. */
  ghost predicate PlaceIsFree(w: World, latest: Latest, p: PageId, form: Form, payload: Text)
    requires p in w.graph.pages
  {
    forall rep :: rep in w.graph.pages[p].representations && rep.Kind() != form.Kind()
                  && StoredAt(rep) == Some(NextPlace(w, payload)) ==>
      (p, rep.Kind()) in latest && latest[(p, rep.Kind())] == payload
  }

  ghost predicate PersistIsTrue(w: World, latest: Latest, p: PageId, form: Form, payload: Text) {
    payload != [] && p in w.graph.pages ==> PlaceIsFree(w, latest, p, form, payload)
  }

  lemma PersistKeepsTruthIff(w: World, latest: Latest, p: PageId, form: Form, payload: Text)
    requires Truthful(w, latest)
    ensures var (w', r) := Persist(w, p, form, payload);
            Truthful(w', if r.Ok? then latest[(p, form.Kind()) := payload] else latest)
            <==> PersistIsTrue(w, latest, p, form, payload)
  {
    hide Truthful, Persist, PlaceIsFree;
    PersistSucceedsIff(w, p, form, payload);
    if payload != [] && p in w.graph.pages {
      PersistedIsTrueIff(w, latest, p, form, payload);
    } else {
      FailedPersistKeepsTruth(w, latest, p, form, payload);
    }
  }

  lemma PersistSucceedsIff(w: World, p: PageId, form: Form, payload: Text)
    ensures Persist(w, p, form, payload).1.Ok? <==> payload != [] && p in w.graph.pages
  {
    hide Key, Added;
  }

  /** What one representation reads after the payload is put, on this page and on others. */
  lemma RepAfterPut(w: World, latest: Latest, p: PageId, form: Form, payload: Text, q: PageId, rep: Representation)
    requires payload != [] && RepTrue(w.store, latest, q, rep)
    ensures var s', latest' := Put(w.store, p, payload, w.graph.generation).0, latest[(p, form.Kind()) := payload];
            && (q != p ==> RepTrue(s', latest', q, rep))
            && (q == p && rep.Kind() != form.Kind() ==>
                  (RepTrue(s', latest', q, rep)
                   <==> (StoredAt(rep) == Some(NextPlace(w, payload)) ==>
                           (p, rep.Kind()) in latest && latest[(p, rep.Kind())] == payload)))
  {
    if q != p {
      OtherPageReads(w.store, p, payload, w.graph.generation, q, rep);
      hide Put, Get;
    } else {
      hide Key;
    }
  }

  lemma OtherPageReads(
    s: PageStore.Store, p: PageId, payload: Text, generation: u64, q: PageId, rep: Representation
  )
    requires q != p && payload != []
    ensures StoredAt(rep).Some? ==>
              Get(Put(s, p, payload, generation).0, q, StoredAt(rep).value) == Get(s, q, StoredAt(rep).value)
  {
    if StoredAt(rep).Some? {
      PutThenGet(s, p, payload, generation, q, StoredAt(rep).value);
    }
  }

  lemma NewRepIsTrue(w: World, latest: Latest, p: PageId, form: Form, payload: Text)
    requires payload != []
    ensures var s' := Put(w.store, p, payload, w.graph.generation).0;
            RepTrue(s', latest[(p, form.Kind()) := payload], p, form.At(NextPlace(w, payload)))
    ensures form.At(NextPlace(w, payload)).Kind() == form.Kind()
  {
    hide Key;
  }

  lemma PersistedWorld(w: World, p: PageId, form: Form, payload: Text)
    requires payload != [] && p in w.graph.pages
    ensures var w' := Persist(w, p, form, payload).0;
            && w'.store == Put(w.store, p, payload, w.graph.generation).0 && w'.graph.pages.Keys == w.graph.pages.Keys
            && (forall q :: q in w.graph.pages && q != p ==> w'.graph.pages[q] == w.graph.pages[q])
            && forall rep :: rep in w'.graph.pages[p].representations
                 <==> rep == form.At(NextPlace(w, payload))
                      || (rep in w.graph.pages[p].representations && rep.Kind() != form.Kind())
  {
    hide Key, Added;
    forall rep
      ensures rep in Persist(w, p, form, payload).0.graph.pages[p].representations
              <==> rep == form.At(NextPlace(w, payload))
                   || (rep in w.graph.pages[p].representations && rep.Kind() != form.Kind())
    {
      RepAfterAdd(w.graph.pages[p].representations, form.At(NextPlace(w, payload)), rep);
    }
  }

  lemma PersistedIsTrueIff(w: World, latest: Latest, p: PageId, form: Form, payload: Text)
    requires Truthful(w, latest) && payload != [] && p in w.graph.pages
    ensures Truthful(Persist(w, p, form, payload).0, latest[(p, form.Kind()) := payload])
            <==> PlaceIsFree(w, latest, p, form, payload)
  {
    hide RepTrue, Persist, Put, StoredAt;
    var w', latest' := Persist(w, p, form, payload).0, latest[(p, form.Kind()) := payload];
    PersistedWorld(w, p, form, payload);
    NewRepIsTrue(w, latest, p, form, payload);
    forall q, rep | q in w.graph.pages && rep in w.graph.pages[q].representations
      ensures q != p ==> RepTrue(w'.store, latest', q, rep)
      ensures q == p && rep.Kind() != form.Kind() ==>
                (RepTrue(w'.store, latest', q, rep)
                 <==> (StoredAt(rep) == Some(NextPlace(w, payload)) ==>
                         (p, rep.Kind()) in latest && latest[(p, rep.Kind())] == payload))
    {
      RepAfterPut(w, latest, p, form, payload, q, rep);
    }
  }

  lemma FailedPersistKeepsTruth(w: World, latest: Latest, p: PageId, form: Form, payload: Text)
    requires Truthful(w, latest) && (payload == [] || p !in w.graph.pages)
    ensures Truthful(Persist(w, p, form, payload).0, latest)
  {
    hide Key;
    var w' := Persist(w, p, form, payload).0;
    if payload != [] {
      FailedPersistIffNew(w, p, form, payload);
      hide Persist;
      forall q, rep | q in w.graph.pages && rep in w.graph.pages[q].representations
        ensures RepTrue(w'.store, latest, q, rep)
      {
        assert RepTrue(w.store, latest, q, rep);
      }
    }
  }

  // ---- attaching, adding and removing ------------------------------------------------------

  /** A graph whose representations are old ones, or have no place. */
  lemma NoNewPlacesKeepsTruth(w: World, latest: Latest, w': World)
    requires Truthful(w, latest) && NoNewPlaces(w.graph, w'.graph) && w'.store == w.store
    ensures Truthful(w', latest)
  {
    hide Get, StoredAt;
    forall p, rep | p in w'.graph.pages && rep in w'.graph.pages[p].representations
      ensures RepTrue(w'.store, latest, p, rep)
    {
      assert StoredAt(rep).None? || RepTrue(w.store, latest, p, rep);
    }
  }

  /** An attached record's own places decide. */
  lemma AttachKeepsTruthIff(w: World, latest: Latest, page: Record)
    requires Truthful(w, latest)
    ensures Truthful(w.(graph := Attach(w.graph, page).0), latest)
            <==> (Attach(w.graph, page).1.Ok? ==> RepsTrue(w.store, latest, page.id, page.representations))
  {
    hide RepsTrue;
    var (g, r) := Attach(w.graph, page);
    if r.Ok? {
      hide Attachable;
      assert g.pages == w.graph.pages[page.id := page];
      forall q | q in w.graph.pages && q != page.id
        ensures RepsTrue(w.store, latest, q, g.pages[q].representations)
      {
        assert RepsTrue(w.store, latest, q, w.graph.pages[q].representations);
      }
      assert g.pages[page.id] == page;
    } else {
      assert w.(graph := g) == w;
    }
  }

  /** So does an added representation's. */
  lemma AddKeepsTruthIff(w: World, latest: Latest, p: PageId, rep: Representation, expected: u64)
    requires Truthful(w, latest)
    ensures var (g, r) := AddRepresentation(w.graph, p, rep, expected);
            Truthful(w.(graph := g), latest) <==> (r.Ok? ==> RepTrue(w.store, latest, p, rep))
  {
    hide RepTrue, Added;
    var (g, r) := AddRepresentation(w.graph, p, rep, expected);
    if r.Ok? {
      forall x
        ensures x in Added(w.graph.pages[p].representations, rep)
                <==> x == rep || (x in w.graph.pages[p].representations && x.Kind() != rep.Kind())
      {
        RepAfterAdd(w.graph.pages[p].representations, rep, x);
      }
      assert g.pages == w.graph.pages[p := g.pages[p]];
      if RepTrue(w.store, latest, p, rep) {
        forall q, x | q in g.pages && x in g.pages[q].representations ensures RepTrue(w.store, latest, q, x) {
          assert (x == rep && q == p) || x in w.graph.pages[q].representations;
        }
      }
      assert rep in g.pages[p].representations;
    } else {
      assert w.(graph := g) == w;
    }
  }

  lemma RegisterKeepsTruthIff(
    w: World, latest: Latest, page: Record, exactBytes: u64, archiveBytes: u64, archiveRef: Text
  )
    requires Truthful(w, latest)
    ensures Truthful(Register(w, page, exactBytes, archiveBytes, archiveRef).0, latest)
            <==> (Attach(w.graph, page).1.Ok? ==> RepsTrue(w.store, latest, page.id, page.representations))
  {
    AttachKeepsTruthIff(w, latest, page);
    var attached := w.(graph := Attach(w.graph, page).0);
    if Attach(w.graph, page).1.Ok? {
      RegisteredPage(w, page, exactBytes, archiveBytes, archiveRef);
      hide Attach, Register, AddRepresentation;
      var w' := Register(w, page, exactBytes, archiveBytes, archiveRef).0;
      UnplacedDoNotMatter(attached, w', latest);
    }
  }

  /** Two worlds with one store and the same placed representations. */
  lemma UnplacedDoNotMatter(a: World, b: World, latest: Latest)
    requires a.store == b.store && NoNewPlaces(a.graph, b.graph) && NoNewPlaces(b.graph, a.graph)
    ensures Truthful(a, latest) <==> Truthful(b, latest)
  {
    hide NoNewPlaces, Truthful;
    if Truthful(a, latest) {
      NoNewPlacesKeepsTruth(a, latest, b);
    }
    if Truthful(b, latest) {
      NoNewPlacesKeepsTruth(b, latest, a);
    }
  }

  /** Registering replaces the exact and the archive representation, which never have a place. */
  lemma RegisteredPage(w: World, page: Record, exactBytes: u64, archiveBytes: u64, archiveRef: Text)
    requires Attach(w.graph, page).1.Ok?
    ensures var attached, w' := Attach(w.graph, page).0, Register(w, page, exactBytes, archiveBytes, archiveRef).0;
            w'.store == w.store && NoNewPlaces(attached, w'.graph) && NoNewPlaces(w'.graph, attached)
  {
    var hot, archive := HotQ8(exactBytes, None), Archive(archiveBytes, archiveRef, None);
    var g1 := Attach(w.graph, page).0;
    assert page.id in g1.pages;
    hide Attach;
    var g2 := AddRepresentation(g1, page.id, hot, g1.generation).0;
    var g3 := AddRepresentation(g2, page.id, archive, g1.generation).0;
    ReplacesUnplaced(g1, page.id, hot);
    ReplacesUnplaced(g2, page.id, archive);
  }

  lemma ReplacesUnplaced(g: GraphState.Graph, p: PageId, rep: Representation)
    requires p in g.pages && (rep.HotQ8? || rep.Archive?) && StoredAt(rep).None?
    ensures var g' := AddRepresentation(g, p, rep, g.generation).0;
            NoNewPlaces(g, g') && NoNewPlaces(g', g) && p in g'.pages && g'.generation == g.generation
  {
    hide Added;
    var g' := AddRepresentation(g, p, rep, g.generation).0;
    forall x
      ensures x in g'.pages[p].representations
              <==> x == rep || (x in g.pages[p].representations && x.Kind() != rep.Kind())
    {
      RepAfterAdd(g.pages[p].representations, rep, x);
    }
  }

  /** Taking an entry out of the store can only turn loads into errors. */
  lemma RemoveKeepsTruth(w: World, latest: Latest, p: PageId, location: Location)
    requires Truthful(w, latest)
    ensures Truthful(w.(store := Remove(w.store, p, location).0), latest)
  {
    hide Key;
    var s := Remove(w.store, p, location).0;
    forall q, rep | q in w.graph.pages && rep in w.graph.pages[q].representations ensures RepTrue(s, latest, q, rep) {
      assert RepTrue(w.store, latest, q, rep);
    }
  }

  lemma EvictKeepsTruth(w: World, latest: Latest, p: PageId, kind: Kind)
    requires Truthful(w, latest)
    ensures Truthful(SafeEvict(w, p, kind).0, latest)
  {
    hide Truthful, Evict, Remove, NoNewPlaces;
    var (g, evicted) := Evict(w.graph, p, kind, w.graph.generation);
    EvictAddsNoPlace(w.graph, p, kind, w.graph.generation);
    NoNewPlacesKeepsTruth(w, latest, w.(graph := g));
    if evicted.Ok? && StoredAt(evicted.value).Some? {
      RemoveKeepsTruth(w.(graph := g), latest, p, StoredAt(evicted.value).value);
    }
  }
}
