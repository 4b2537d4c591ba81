/** The controller, driving its graph and its store in place. */
module ContextFold {
  import opened Wrappers
  import opened Arithmetic
  import opened Digests
  import opened PageKey
  import opened PageRecord
  import opened GraphState
  import MemoryStore
  import opened FoldState
  import PrefixGraph

  class ContextFoldController {
    const graph: PrefixGraph.PrefixGraph
    const store: MemoryStore.MemoryPageStore
    const archiveRef: Text
    var hotPages: set<PageId>

    ghost function State(): World
      reads this, graph, store
    {
      World(graph.State(), store.State(), hotPages)
    }

    constructor (mixer: Mixer, storeId: Text, archiveRef: Text)
      ensures fresh(graph) && fresh(store)
      ensures State() == World(EMPTY, PageStore.Store(storeId, 0, map[]), {}) && this.archiveRef == archiveRef
    {
      graph := new PrefixGraph.PrefixGraph(mixer);
      store := new MemoryStore.MemoryPageStore(storeId);
      this.archiveRef, hotPages := archiveRef, {};
    }

    method RegisterReferencePage(page: Record, exactBytes: u64, archiveBytes: u64) returns (r: Result<(), FoldError>)
      modifies this`hotPages, graph
      ensures (State(), r) == Register(old(State()), page, exactBytes, archiveBytes, archiveRef)
    {
      hide GraphState.Attach, GraphState.AddRepresentation;
      var attached := graph.AttachPage(page);
      if attached.Err? {
        return Err(InGraph(attached.error));
      }
      var generation := graph.generation;
      var hot := graph.AddRepresentation(page.id, HotQ8(exactBytes, None), generation);
      if hot.Err? {
        return Err(InGraph(hot.error));
      }
      hotPages := hotPages + {page.id};
      var archive := graph.AddRepresentation(page.id, Archive(archiveBytes, archiveRef, None), generation);
      if archive.Err? {
        return Err(InGraph(archive.error));
      }
      r := Ok(());
    }

    method PersistLatentPage(
      p: PageId, codec: Text, payload: Text, quality: Certificate
    ) returns (r: Result<Location, FoldError>)
      modifies graph, store
      ensures (State(), r) == Persist(old(State()), p, AsLatent(codec, quality), payload)
    {
      hide Added, Key;
      var generation := graph.generation;
      var location := store.Put(p, payload, generation);
      if location.Err? {
        return Err(InStore(location.error));
      }
      var representation := Latent(codec, location.value.length, quality, Some(location.value));
      var added := graph.AddRepresentation(p, representation, generation);
      if added.Err? {
        var _ := store.Remove(p, location.value);
        return Err(InGraph(added.error));
      }
      r := Ok(location.value);
    }

    method PersistLosslessPage(p: PageId, payload: Text) returns (r: Result<Location, FoldError>)
      modifies graph, store
      ensures (State(), r) == Persist(old(State()), p, AsLossless, payload)
    {
      hide Added, Key;
      var generation := graph.generation;
      var location := store.Put(p, payload, generation);
      if location.Err? {
        return Err(InStore(location.error));
      }
      var added := graph.AddRepresentation(p, Lossless(location.value.length, Some(location.value)), generation);
      if added.Err? {
        var _ := store.Remove(p, location.value);
        return Err(InGraph(added.error));
      }
      r := Ok(location.value);
    }

    /** Pages that end inside the recent window and have an exact representation become hot, all others cold. */
    method SetRecentHot(currentToken: u64, window: u64) returns (r: Result<(), FoldError>)
      modifies this`hotPages
      ensures (State(), r) == FoldState.SetRecentHot(old(State()), currentToken, window)
    {
      if window == 0 {
        return Err(InGraph(InvalidPage));
      }
      hide Recent;
      ghost var before, g := hotPages, graph.State();
      var rest := graph.pages.Keys;
      while rest != {}
        invariant rest <= g.pages.Keys
        invariant forall p ::
                    p in hotPages
                    <==> if p in g.pages && p !in rest then Recent(g, currentToken, window, p) else p in before
        decreases |rest|
      {
        var p :| p in rest;
        RecentIs(g, currentToken, window, p);
        var cutoff := if currentToken < window then 0 else currentToken - window;
        if p.tokenEnd > cutoff && Find(graph.pages[p].representations, ExactHotQ8).Some? {
          hotPages := hotPages + {p};
        } else {
          hotPages := hotPages - {p};
        }
        rest := rest - {p};
      }
      assert hotPages == FoldState.SetRecentHot(old(State()), currentToken, window).0.hot;
      r := Ok(());
    }

    method MarkPageHot(p: PageId) returns (r: Result<(), FoldError>)
      modifies this`hotPages
      ensures (State(), r) == MarkHot(old(State()), p)
    {
      if p !in graph.pages {
        return Err(InGraph(UnknownPage));
      }
      hotPages := hotPages + {p};
      r := Ok(());
    }

    method MarkPageCold(p: PageId) returns (r: Result<(), FoldError>)
      modifies this`hotPages
      ensures (State(), r) == MarkCold(old(State()), p)
    {
      if p !in graph.pages {
        return Err(InGraph(UnknownPage));
      }
      hotPages := hotPages - {p};
      r := Ok(());
    }

    method PromoteWarm(p: PageId, bytes: u64, codec: Text) returns (r: Result<(), FoldError>)
      modifies graph
      ensures (State(), r) == Promote(old(State()), p, bytes, codec)
    {
      var added := graph.AddRepresentation(p, Warm(bytes, codec, None), graph.generation);
      r := if added.Err? then Err(InGraph(added.error)) else Ok(());
    }

    method LoadRepresentationPayload(p: PageId, kind: Kind) returns (r: Result<Text, FoldError>)
      ensures r == Load(State(), p, kind)
    {
      if p !in graph.pages {
        return Err(InGraph(UnknownPage));
      }
      var rep := Find(graph.pages[p].representations, kind);
      if rep.None? {
        return Err(NoRepresentation);
      }
      var location := StoredAt(rep.value);
      if location.None? {
        return Err(NoLocation);
      }
      var bytes := store.Get(p, location.value);
      r := if bytes.Err? then Err(InStore(bytes.error)) else Ok(bytes.value);
    }

    method SafeEvict(p: PageId, kind: Kind) returns (r: Result<(), FoldError>)
      modifies graph, store
      ensures (State(), r) == FoldState.SafeEvict(old(State()), p, kind)
    {
      hide Key;
      var evicted := graph.Evict(p, kind, graph.generation);
      if evicted.Err? {
        return Err(InGraph(evicted.error));
      }
      var location := StoredAt(evicted.value);
      if location.Some? {
        var removed := store.Remove(p, location.value);
        if removed.Err? {
          return Err(InStore(removed.error));
        }
      }
      r := Ok(());
    }

    method AcquireLease(p: PageId, kind: Kind, owner: Text) returns (r: Result<Lease, FoldError>)
      modifies graph
      ensures var (g, lease) := GraphState.AcquireLease(graph.mixer, old(graph.State()), p, kind, owner,
                                                        old(graph.generation));
              State() == old(State()).(graph := g)
                  && r == if lease.Err? then Err(InGraph(lease.error)) else Ok(lease.value)
    {
      var lease := graph.Lease(p, kind, owner, graph.generation);
      r := if lease.Err? then Err(InGraph(lease.error)) else Ok(lease.value);
    }

    method ReleaseLease(lease: Lease) returns (r: Result<(), FoldError>)
      modifies graph
      ensures var (g, released) := GraphState.ReleaseLease(old(graph.State()), lease.leaseId);
              State() == old(State()).(graph := g)
                  && r == if released.Err? then Err(InGraph(released.error)) else Ok(())
    {
      var released := graph.ReleaseLease(lease.leaseId);
      r := if released.Err? then Err(InGraph(released.error)) else Ok(());
    }
  }

  lemma RecentIs(g: Graph, currentToken: u64, window: u64, p: PageId)
    requires p in g.pages
    ensures Recent(g, currentToken, window, p)
            <==> && p.tokenEnd > (if currentToken < window then 0 else currentToken - window)
                 && Find(g.pages[p].representations, ExactHotQ8).Some?
  {
  }
}
