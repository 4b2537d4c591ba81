/** What the page store and the controller answer and change, case by case. */
module FoldAnswers {
  import opened Wrappers
  import opened Arithmetic
  import opened Digests
  import opened PageKey
  import opened PageRecord
  import opened GraphState
  import opened PageStore
  import opened FoldState
  import GraphAnswers

  // ---- the store ------------------------------------------------------------------------------

  /** A put: refused for no bytes; else the page's one entry, at the next offset, which moves on by the length. */
  lemma PutIs(s: PageStore.Store, p: PageId, payload: Text, generation: u64)
    ensures var (s', r) := Put(s, p, payload, generation);
            && (payload == [] ==> r == Err(EmptyPayload) && s' == s)
            && (payload != [] ==>
                  && r.Ok? && r.value.storeId == s.id && r.value.offset == s.nextOffset && r.value.length == |payload|
                  && r.value.generation == generation
                  && s'.id == s.id && s'.entries.Keys == s.entries.Keys + {Key(p)}
                  && s'.entries[Key(p)] == (r.value, payload)
                  && (forall k :: k in s.entries && k != Key(p) ==> s'.entries[k] == s.entries[k])
                  && (s.nextOffset + |payload| <= U64_MAX ==> s'.nextOffset == s.nextOffset + |payload|)
                  && (s.nextOffset + |payload| > U64_MAX ==> s'.nextOffset == U64_MAX))
  {
    hide Key;
  }

  /** A get gives the payload of exactly the entry at that place, and says which part is missing. */
  lemma GetIs(s: PageStore.Store, p: PageId, location: Location, payload: Text)
    ensures Get(s, p, location) == Ok(payload) <==> Key(p) in s.entries && s.entries[Key(p)] == (location, payload)
    ensures Get(s, p, location) == Err(MissingPage) <==> Key(p) !in s.entries
    ensures Get(s, p, location) == Err(StoreRejected) <==> Key(p) in s.entries && s.entries[Key(p)].0 != location
  {
    hide Key;
  }

  /** A remove takes exactly that entry, or answers as a get would and changes nothing. */
  lemma RemoveIs(s: PageStore.Store, p: PageId, location: Location)
    ensures var (s', r) := Remove(s, p, location);
            && (r.Ok? <==> Get(s, p, location).Ok?)
            && (r.Err? ==> s' == s && Get(s, p, location) == Err(r.error))
            && (r.Ok? ==>
                  && s'.id == s.id && s'.nextOffset == s.nextOffset && s'.entries.Keys == s.entries.Keys - {Key(p)}
                  && forall k :: k in s'.entries ==> s'.entries[k] == s.entries[k])
  {
    hide Key;
  }

  // ---- the controller -----------------------------------------------------------------------------

  /**
   Registering attaches the page with the exact and the archive representation, of
   these sizes and without a place, in the place of any of those kinds; every other
   kind is the record's, the page is hot, and the store is as it was.
   */
  lemma RegisterIs(w: World, page: Record, exactBytes: u64, archiveBytes: u64, archiveRef: Text)
    ensures var (w', r) := Register(w, page, exactBytes, archiveBytes, archiveRef);
            && (r.Ok? <==> Attach(w.graph, page).1.Ok?)
            && (r.Err? ==> w' == w && Attach(w.graph, page).1 == Err(r.error.graph))
            && (r.Ok? ==>
                  && w'.store == w.store && w'.hot == w.hot + {page.id}
                  && page.id in w'.graph.pages
                  && (forall kind :: Find(w'.graph.pages[page.id].representations, kind)
                                     == if kind == ExactHotQ8 then Some(HotQ8(exactBytes, None))
                                        else if kind == ExactTokenArchive then
                                          Some(Archive(archiveBytes, archiveRef, None))
                                        else Find(page.representations, kind))
                  && w'.graph.pages[page.id].(representations := []) == page.(representations := [])
                  && w'.graph.nodes == Attach(w.graph, page).0.nodes
                  && w'.graph.pages.Keys == w.graph.pages.Keys + {page.id}
                  && forall q :: q in w.graph.pages && q != page.id ==> w'.graph.pages[q] == w.graph.pages[q])
  {
    hide AddRepresentation, Find, Added;
    GraphAnswers.AttachAnswers(w.graph, page);
    var g1 := Attach(w.graph, page).0;
    if Attach(w.graph, page).1.Ok? {
      GraphAnswers.AttachChanges(w.graph, page);
      hide Attach;
      var hot, archive := HotQ8(exactBytes, None), Archive(archiveBytes, archiveRef, None);
      GraphAnswers.AddAnswers(g1, page.id, hot, g1.generation);
      var g2 := AddRepresentation(g1, page.id, hot, g1.generation).0;
      GraphAnswers.AddAnswers(g2, page.id, archive, g1.generation);
    }
  }

  /** Promoting adds a warm representation of that size and codec, without a place, to a known page. */
  lemma PromoteIs(w: World, p: PageId, bytes: u64, codec: Text)
    ensures var (w', r) := Promote(w, p, bytes, codec);
            && (r.Ok? <==> p in w.graph.pages) && (r.Err? ==> r == Err(InGraph(UnknownPage)) && w' == w)
            && w'.store == w.store && w'.hot == w.hot
            && (r.Ok? ==>
                  && GraphAnswers.OnlyPage(w.graph, w'.graph, p)
                  && forall kind :: Find(w'.graph.pages[p].representations, kind)
                                    == if kind == ReconstructedWarm then Some(Warm(bytes, codec, None))
                                       else Find(w.graph.pages[p].representations, kind))
  {
    hide AddRepresentation, Find;
    GraphAnswers.AddAnswers(w.graph, p, Warm(bytes, codec, None), w.graph.generation);
  }

  /** A persist records the form's own representation, of the payload's length, at the place just written. */
  lemma PersistIs(w: World, p: PageId, form: Form, payload: Text)
    ensures var (w', r) := Persist(w, p, form, payload);
            && w'.hot == w.hot && w'.store.id == w.store.id
            && (r.Ok? <==> payload != [] && p in w.graph.pages)
            && (payload == [] ==> r == Err(InStore(EmptyPayload)) && w' == w)
            && (payload != [] && p !in w.graph.pages ==> r == Err(InGraph(UnknownPage)))
            && (r.Ok? ==>
                  && r.value == Location(w.store.id, w.store.nextOffset, |payload|, w.graph.generation)
                  && GraphAnswers.OnlyPage(w.graph, w'.graph, p) && w'.graph.leases == w.graph.leases
                  && forall kind :: Find(w'.graph.pages[p].representations, kind)
                                    == if kind != form.Kind() then Find(w.graph.pages[p].representations, kind)
                                       else match form
                                            case AsLatent(codec, quality) =>
                                              Some(Latent(codec, |payload|, quality, Some(r.value)))
                                            case AsLossless => Some(Lossless(|payload|, Some(r.value))))
            && (form.AsLatent? ==> form.Kind() == ContextFoldLatent)
            && (form.AsLossless? ==> form.Kind() == LosslessColdPage)
  {
    hide AddRepresentation, Find, Key;
    PutIs(w.store, p, payload, w.graph.generation);
    if payload != [] {
      var location := Location(w.store.id, w.store.nextOffset, |payload|, w.graph.generation);
      GraphAnswers.AddAnswers(w.graph, p, form.At(location), w.graph.generation);
    }
  }

  /** A load: the page, then the kind, then its place, then the store; the first that is missing is the error. */
  lemma LoadIs(w: World, p: PageId, kind: Kind)
    ensures var r, known := Load(w, p, kind), p in w.graph.pages;
            && (r == Err(InGraph(UnknownPage)) <==> !known)
            && (r == Err(NoRepresentation) <==>
                  known && forall rep :: rep in w.graph.pages[p].representations ==> rep.Kind() != kind)
            && (known ==>
                  match Find(w.graph.pages[p].representations, kind)
                  case None => true
                  case Some(Latent(_, _, _, Some(place))) => Fetches(w.store, p, place, r)
                  case Some(Lossless(_, Some(place))) => Fetches(w.store, p, place, r)
                  case Some(_) => r == Err(NoLocation))
  {
    hide Get, Key;
  }

  /** The load's answer is the store's. */
  ghost predicate Fetches(s: PageStore.Store, p: PageId, place: Location, r: Result<Text, FoldError>) {
    match Get(s, p, place)
    case Ok(bytes) => r == Ok(bytes)
    case Err(e) => r == Err(InStore(e))
  }

  /** An eviction answers as the graph does, and then as the store does for the place that was recorded, if any. */
  lemma SafeEvictIs(w: World, p: PageId, kind: Kind)
    ensures var (w', r), (g, evicted) := SafeEvict(w, p, kind), Evict(w.graph, p, kind, w.graph.generation);
            && w'.graph == g && w'.hot == w.hot
            && (evicted.Err? ==> r == Err(InGraph(evicted.error)) && w'.store == w.store)
            && (evicted.Ok? ==>
                  match evicted.value
                  case Latent(_, _, _, Some(place)) => Removes(w.store, p, place, w'.store, r)
                  case Lossless(_, Some(place)) => Removes(w.store, p, place, w'.store, r)
                  case _ => r.Ok? && w'.store == w.store)
  {
    hide Evict, Remove;
  }

  ghost predicate Removes(
    s: PageStore.Store, p: PageId, place: Location, s': PageStore.Store, r: Result<(), FoldError>
  ) {
    && s' == Remove(s, p, place).0 && (r.Ok? <==> Remove(s, p, place).1.Ok?)
    && (r.Err? ==> r.error.InStore? && Remove(s, p, place).1 == Err(r.error.store))
  }

  /** Marks need a known page and change that page's mark alone. */
  lemma MarksAre(w: World, p: PageId, q: PageId)
    ensures (MarkHot(w, p).1.Ok? <==> p in w.graph.pages) && (MarkCold(w, p).1.Ok? <==> p in w.graph.pages)
    ensures MarkHot(w, p).1.Err? ==> MarkHot(w, p) == (w, Err(InGraph(UnknownPage)))
    ensures MarkCold(w, p).1.Err? ==> MarkCold(w, p) == (w, Err(InGraph(UnknownPage)))
    ensures p in w.graph.pages ==> (q in MarkHot(w, p).0.hot <==> q == p || q in w.hot)
    ensures p in w.graph.pages ==> (q in MarkCold(w, p).0.hot <==> q != p && q in w.hot)
    ensures MarkHot(w, p).0.(hot := {}) == w.(hot := {}) == MarkCold(w, p).0.(hot := {})
  {
  }

  /** What is recent: a page that ends less than the window before the current token, with its exact representation. */
  lemma RecentIs(w: World, currentToken: u64, window: u64, p: PageId)
    ensures Recent(w.graph, currentToken, window, p)
            <==> p in w.graph.pages && p.tokenEnd + window > currentToken && p.tokenEnd > 0
                 && exists rep :: rep in w.graph.pages[p].representations && rep.Kind() == ExactHotQ8
    ensures window == 0 ==> SetRecentHot(w, currentToken, window) == (w, Err(InGraph(InvalidPage)))
    ensures window > 0 ==>
              && SetRecentHot(w, currentToken, window).1.Ok?
              && SetRecentHot(w, currentToken, window).0.(hot := {}) == w.(hot := {})
              && (p in w.graph.pages ==>
                    (p in SetRecentHot(w, currentToken, window).0.hot <==> Recent(w.graph, currentToken, window, p)))
              && (p !in w.graph.pages ==> (p in SetRecentHot(w, currentToken, window).0.hot <==> p in w.hot))
  {
  }
}
