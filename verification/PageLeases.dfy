/** Page leases: counts equal live leases, and a leased kind stays on its page. */
module PageLeases {
  import opened Wrappers
  import opened Arithmetic
  import LittleEndian
  import opened Digests
  import opened PageKey
  import opened PageRecord
  import opened GraphState

  type Leases = map<Digest, Lease>

  ghost function LeasesOn(leases: Leases, p: PageId): set<Digest> {
    set id | id in leases && leases[id].page == p
  }

  ghost predicate Has(page: Record, kind: Kind) {
    Find(page.representations, kind).Some?
  }

  /** A live lease carries its own id, and its page still has the leased kind. */
  ghost predicate LeaseOk(h: Mixer, pages: map<PageId, Record>, id: Digest, lease: Lease) {
    && lease.leaseId == id && id == LeaseId(h, lease.page, lease.owner, lease.generation)
    && lease.page in pages && Has(pages[lease.page], lease.kind)
  }

  /** Both counts of a page equal the number of live leases on it. */
  ghost predicate CountsOk(leases: Leases, p: PageId, page: Record) {
    page.id == p && page.activeLeases == |LeasesOn(leases, p)| && page.referenceCount == |LeasesOn(leases, p)|
  }

  ghost predicate Leased(h: Mixer, pages: map<PageId, Record>, leases: Leases) {
    && (forall id :: id in leases ==> LeaseOk(h, pages, id, leases[id]))
    && (forall p :: p in pages ==> CountsOk(leases, p, pages[p]))
  }

  // ---- how the set of leases on a page changes ------------------------------------------

  lemma LeaseAdded(leases: Leases, id: Digest, lease: Lease, p: PageId)
    requires id !in leases
    ensures LeasesOn(leases[id := lease], p) == LeasesOn(leases, p) + (if lease.page == p then {id} else {})
    ensures |LeasesOn(leases[id := lease], p)| == |LeasesOn(leases, p)| + (if lease.page == p then 1 else 0)
  {
    var on, on' := LeasesOn(leases, p), LeasesOn(leases[id := lease], p);
    assert id !in on;
    assert on' == on + (if lease.page == p then {id} else {});
  }

  lemma LeaseReplaced(leases: Leases, id: Digest, lease: Lease, p: PageId)
    requires id in leases && leases[id].page == lease.page
    ensures LeasesOn(leases[id := lease], p) == LeasesOn(leases, p)
  {
  }

  lemma LeaseRemoved(leases: Leases, id: Digest, p: PageId)
    requires id in leases
    ensures |LeasesOn(leases - {id}, p)| == |LeasesOn(leases, p)| - (if leases[id].page == p then 1 else 0)
    ensures leases[id].page == p ==> |LeasesOn(leases, p)| > 0
  {
    var on, on' := LeasesOn(leases, p), LeasesOn(leases - {id}, p);
    assert on' == on - {id};
    assert leases[id].page == p <==> id in on;
  }

  // ---- lease ids ---------------------------------------------------------------------------

  lemma LeasePartsInjective(p: PageId, owner: Text, generation: u64, p': PageId, owner': Text, generation': u64)
    requires LeaseParts(p, owner, generation) == LeaseParts(p', owner', generation')
    ensures p == p' && owner == owner' && generation == generation'
  {
    var a, b := LeaseParts(p, owner, generation), LeaseParts(p', owner', generation');
    assert a[0] == b[0] && a[1] == b[1] && a[2] == b[2];
    hide LeaseParts, Key;
    KeyInjective(p, p');
    LittleEndian.Le64Injective(generation, generation');
  }

  ghost predicate LeaseCollision(h: Mixer, lease: Lease, p: PageId, owner: Text, generation: u64) {
    Collision(h, Frame(LeaseParts(lease.page, lease.owner, lease.generation)), Frame(LeaseParts(p, owner, generation)))
  }

  ghost predicate SameHolder(lease: Lease, p: PageId, owner: Text, generation: u64) {
    lease.page == p && lease.owner == owner && lease.generation == generation
  }

  /** An id is taken exactly when a live lease has the same page, owner and generation. */
  lemma IdTakenIff(h: Mixer, g: Graph, p: PageId, owner: Text, generation: u64)
    requires Leased(h, g.pages, g.leases)
    requires forall id :: id in g.leases ==> !LeaseCollision(h, g.leases[id], p, owner, generation)
    ensures LeaseId(h, p, owner, generation) in g.leases
            <==> exists id :: id in g.leases && SameHolder(g.leases[id], p, owner, generation)
  {
    hide Frame, LeaseParts;
    var taken := LeaseId(h, p, owner, generation);
    if taken in g.leases {
      var lease := g.leases[taken];
      assert LeaseOk(h, g.pages, taken, lease);
      PartsOrCollision(h, LeaseParts(lease.page, lease.owner, lease.generation), LeaseParts(p, owner, generation));
      LeasePartsInjective(lease.page, lease.owner, lease.generation, p, owner, generation);
    }
    if id :| id in g.leases && SameHolder(g.leases[id], p, owner, generation) {
      assert LeaseOk(h, g.pages, id, g.leases[id]);
    }
  }

  // ---- the operations ------------------------------------------------------------------------

  /** Taking a lease keeps the counts exact precisely when its id was not yet live. */
  lemma AcquireKeepsLeased(h: Mixer, g: Graph, p: PageId, kind: Kind, owner: Text, expected: u64)
    requires Leased(h, g.pages, g.leases)
    ensures var (g', r) := AcquireLease(h, g, p, kind, owner, expected);
            r.Ok? ==> (Leased(h, g'.pages, g'.leases) <==> LeaseId(h, p, owner, g.generation) !in g.leases)
  {
    hide LeaseId, Find, LeasesOn;
    var (g', r) := AcquireLease(h, g, p, kind, owner, expected);
    if r.Ok? {
      var id := r.value.leaseId;
      if id in g.leases {
        assert LeaseOk(h, g.pages, id, g.leases[id]) && CountsOk(g.leases, p, g.pages[p]);
        if g.leases[id].page == p {
          LeaseReplaced(g.leases, id, r.value, p);
          assert !CountsOk(g'.leases, p, g'.pages[p]);
        } else {
          LeaseMoved(h, g, id, r.value, p, g'.pages);
        }
      } else {
        forall q | q in g'.pages ensures CountsOk(g'.leases, q, g'.pages[q]) {
          LeaseAdded(g.leases, id, r.value, q);
          assert CountsOk(g.leases, q, g.pages[q]);
        }
      }
    }
  }

  /** A colliding id takes a lease away from another page, whose counts then say too much. */
  lemma LeaseMoved(h: Mixer, g: Graph, id: Digest, lease: Lease, p: PageId, pages': map<PageId, Record>)
    requires Leased(h, g.pages, g.leases) && id in g.leases && lease.page == p && g.leases[id].page != p && p in g.pages
    requires pages' == g.pages[p := WithCounts(g.pages[p], 1)]
    ensures !Leased(h, pages', g.leases[id := lease])
  {
    hide LeaseId, Find;
    var q := g.leases[id].page;
    assert LeaseOk(h, g.pages, id, g.leases[id]) && CountsOk(g.leases, q, g.pages[q]);
    assert LeasesOn(g.leases[id := lease], q) == LeasesOn(g.leases, q) - {id};
    assert id in LeasesOn(g.leases, q);
    assert !CountsOk(g.leases[id := lease], q, pages'[q]);
  }

  /** Exactly the live leases can be released, and counts stay exact. */
  lemma ReleaseKeepsLeased(h: Mixer, g: Graph, id: Digest)
    requires Leased(h, g.pages, g.leases)
    ensures var (g', r) := ReleaseLease(g, id);
            Leased(h, g'.pages, g'.leases) && (r == Ok(()) <==> id in g.leases)
                && (r.Err? ==> g' == g && r.error == InvalidLease)
  {
    hide LeaseId, Find, LeasesOn;
    if id in g.leases {
      var p := g.leases[id].page;
      assert LeaseOk(h, g.pages, id, g.leases[id]) && CountsOk(g.leases, p, g.pages[p]);
      LeaseRemoved(g.leases, id, p);
      var g' := ReleaseLease(g, id).0;
      forall q | q in g'.pages ensures CountsOk(g'.leases, q, g'.pages[q]) {
        LeaseRemoved(g.leases, id, q);
        assert CountsOk(g.leases, q, g.pages[q]);
      }
      forall x | x in g'.leases ensures LeaseOk(h, g'.pages, x, g'.leases[x]) {
        assert LeaseOk(h, g.pages, x, g.leases[x]);
      }
    }
  }

  /** Releasing at once a lease with a new id restores the graph. */
  lemma ReleaseUndoesAcquire(h: Mixer, g: Graph, p: PageId, kind: Kind, owner: Text)
    requires AcquireLease(h, g, p, kind, owner, g.generation).1.Ok? && LeaseId(h, p, owner, g.generation) !in g.leases
    ensures var (g', r) := AcquireLease(h, g, p, kind, owner, g.generation);
            ReleaseLease(g', r.value.leaseId) == (g, Ok(()))
  {
    hide LeaseId, Find;
    var (g', r) := AcquireLease(h, g, p, kind, owner, g.generation);
    assert g'.leases - {r.value.leaseId} == g.leases;
    assert g'.pages[p := g.pages[p]] == g.pages;
  }

  /** Eviction succeeds exactly with the current generation, no live lease on the page, and the kind there. */
  lemma EvictSucceedsIff(h: Mixer, g: Graph, p: PageId, kind: Kind, expected: u64)
    requires Leased(h, g.pages, g.leases)
    ensures Evict(g, p, kind, expected).1.Ok?
            <==> expected == g.generation && p in g.pages && LeasesOn(g.leases, p) == {} && Has(g.pages[p], kind)
  {
    hide Find, LeasesOn;
    if p in g.pages {
      assert CountsOk(g.leases, p, g.pages[p]);
    }
  }

  lemma EvictKeepsLeased(h: Mixer, g: Graph, p: PageId, kind: Kind, expected: u64)
    requires Leased(h, g.pages, g.leases)
    ensures var g' := Evict(g, p, kind, expected).0; Leased(h, g'.pages, g'.leases)
  {
    hide Find, LeaseId;
    var (g', r) := Evict(g, p, kind, expected);
    if r.Ok? {
      assert CountsOk(g.leases, p, g.pages[p]);
      forall id | id in g.leases ensures LeaseOk(h, g'.pages, id, g.leases[id]) {
        assert LeaseOk(h, g.pages, id, g.leases[id]);
        assert id !in LeasesOn(g.leases, p);
      }
      forall q | q in g'.pages ensures CountsOk(g.leases, q, g'.pages[q]) {
        assert CountsOk(g.leases, q, g.pages[q]);
      }
    }
  }

  /** What a successful eviction takes away: the first of that kind, from that page, and nothing else. */
  lemma EvictRemovesKind(g: Graph, p: PageId, kind: Kind, expected: u64, other: Kind)
    requires Evict(g, p, kind, expected).1.Ok?
    ensures var (g', r) := Evict(g, p, kind, expected);
            var before, after := g.pages[p].representations, g'.pages[p].representations;
            && g' == g.(pages := g.pages[p := g.pages[p].(representations := after)])
            && Find(before, kind) == Some(r.value)
            && (other != kind ==> Find(after, other) == Find(before, other))
            && (Find(after, kind).None? <==> Single(before, kind))
            && (OneEach(before) ==> OneEach(after))
  {
    hide Find, OneEach, Single, Removed;
    FirstRemoved(g.pages[p].representations, kind, other);
  }

  lemma AddKeepsLeased(h: Mixer, g: Graph, p: PageId, rep: Representation, expected: u64)
    requires Leased(h, g.pages, g.leases)
    ensures var g' := AddRepresentation(g, p, rep, expected).0; Leased(h, g'.pages, g'.leases)
  {
    hide Find, Added, LeaseId, LeasesOn;
    var (g', r) := AddRepresentation(g, p, rep, expected);
    if r.Ok? {
      forall id | id in g.leases ensures LeaseOk(h, g'.pages, id, g.leases[id]) {
        assert LeaseOk(h, g.pages, id, g.leases[id]);
        FindAdded(g.pages[p].representations, rep, g.leases[id].kind);
      }
      forall q | q in g'.pages ensures CountsOk(g.leases, q, g'.pages[q]) {
        assert CountsOk(g.leases, q, g.pages[q]);
      }
    }
  }

  /**
   Attaching a page, new or over an attached one, keeps the counts exact
   precisely when the record counts the live leases on that page and has all
   their kinds: for a record with zero counts, when there is no such lease.
   */
  lemma AttachKeepsLeased(h: Mixer, g: Graph, page: Record)
    requires Leased(h, g.pages, g.leases)
    ensures var (g', r) := Attach(g, page);
            r.Ok? ==> (Leased(h, g'.pages, g'.leases)
                       <==> CountsOk(g.leases, page.id, page)
                            && forall id :: id in LeasesOn(g.leases, page.id) ==> Has(page, g.leases[id].kind))
  {
    hide Find, LeaseId;
    var (g', r) := Attach(g, page);
    if r.Ok? {
      var fits := CountsOk(g.leases, page.id, page)
                  && forall id :: id in LeasesOn(g.leases, page.id) ==> Has(page, g.leases[id].kind);
      if fits {
        forall id | id in g.leases ensures LeaseOk(h, g'.pages, id, g.leases[id]) {
          assert LeaseOk(h, g.pages, id, g.leases[id]);
          assert id in LeasesOn(g.leases, page.id) <==> g.leases[id].page == page.id;
        }
        forall q | q in g'.pages ensures CountsOk(g.leases, q, g'.pages[q]) {
          assert q != page.id ==> CountsOk(g.leases, q, g.pages[q]);
        }
      }
      if Leased(h, g'.pages, g'.leases) {
        assert CountsOk(g.leases, page.id, g'.pages[page.id]);
        forall id | id in LeasesOn(g.leases, page.id) ensures Has(page, g.leases[id].kind) {
          assert LeaseOk(h, g'.pages, id, g.leases[id]);
        }
      }
    }
  }

  /** No lease is on a page that is not attached, so a new page with zero counts always fits. */
  lemma NewPageHasNoLeases(h: Mixer, g: Graph, p: PageId)
    requires Leased(h, g.pages, g.leases) && p !in g.pages
    ensures LeasesOn(g.leases, p) == {}
  {
    hide LeaseId, Find;
    forall id | id in g.leases ensures g.leases[id].page != p {
      assert LeaseOk(h, g.pages, id, g.leases[id]);
    }
  }

  // ---- what a repeated lease does ----------------------------------------------------------

  /** A page that counts more leases than are live on it. */
  ghost predicate OverCounted(g: Graph, p: PageId) {
    && p in g.pages && g.pages[p].activeLeases > |LeasesOn(g.leases, p)|
    && g.pages[p].referenceCount > |LeasesOn(g.leases, p)|
  }

  lemma OverCountedIsRefused(g: Graph, p: PageId, kind: Kind)
    requires OverCounted(g, p)
    ensures Evict(g, p, kind, g.generation).1 == Err(ActiveLease)
  {
  }

  /** Releasing any lease, live or not, leaves such a page over-counted. */
  lemma ReleaseKeepsOverCounted(g: Graph, p: PageId, id: Digest)
    requires OverCounted(g, p)
    ensures OverCounted(ReleaseLease(g, id).0, p)
  {
    hide LeasesOn;
    if id in g.leases {
      LeaseRemoved(g.leases, id, p);
    }
  }

  /** So does taking one, by anybody, under whatever id. */
  lemma AcquireKeepsOverCounted(h: Mixer, g: Graph, p: PageId, q: PageId, kind: Kind, owner: Text, expected: u64)
    requires OverCounted(g, p)
    ensures OverCounted(AcquireLease(h, g, q, kind, owner, expected).0, p)
  {
    hide LeaseId, Find, LeasesOn;
    var (g', r) := AcquireLease(h, g, q, kind, owner, expected);
    if r.Ok? {
      AtMostOneMore(g.leases, r.value.leaseId, r.value, p);
    }
  }

  lemma AtMostOneMore(leases: Leases, id: Digest, lease: Lease, p: PageId)
    ensures |LeasesOn(leases[id := lease], p)| <= |LeasesOn(leases, p)| + if lease.page == p then 1 else 0
  {
    var on, on' := LeasesOn(leases, p), LeasesOn(leases[id := lease], p);
    LeasesGrow(leases, id, lease, p);
    hide LeasesOn;
    if lease.page == p {
      OneMoreSize(on, on', id);
    } else {
      SubsetSize(on', on);
    }
  }

  lemma LeasesGrow(leases: Leases, id: Digest, lease: Lease, p: PageId)
    ensures var on, on' := LeasesOn(leases, p), LeasesOn(leases[id := lease], p);
            if lease.page == p then on' <= on + {id} else on' <= on
  {
  }

  lemma OneMoreSize<T>(a: set<T>, b: set<T>, x: T)
    requires b <= a + {x}
    ensures |b| <= |a| + 1
  {
    SubsetSize(b, a + {x});
  }

  /** The graph after releases of these ids, one after the other. */
  function ReleasedAll(g: Graph, ids: seq<Digest>): Graph {
    if ids == [] then g else ReleaseLease(ReleasedAll(g, ids[..|ids| - 1]), ids[|ids| - 1]).0
  }

  lemma {:induction false} ReleasesKeepOverCounted(g: Graph, p: PageId, ids: seq<Digest>)
    requires OverCounted(g, p)
    ensures OverCounted(ReleasedAll(g, ids), p)
  {
    hide OverCounted, ReleaseLease;
    if ids != [] {
      ReleasesKeepOverCounted(g, p, ids[..|ids| - 1]);
      ReleaseKeepsOverCounted(ReleasedAll(g, ids[..|ids| - 1]), p, ids[|ids| - 1]);
    }
  }

  /**
   Leasing a page twice for one owner in one generation makes one lease and two
   counts: after its release no lease is left, yet after no releases at all can
   the page be evicted.
   */
  lemma RepeatedLeasePinsPage(h: Mixer, g: Graph, p: PageId, kind: Kind, owner: Text, ids: seq<Digest>)
    requires Leased(h, g.pages, g.leases) && p in g.pages && LeasesOn(g.leases, p) == {} && Has(g.pages[p], kind)
    ensures var (g1, r1) := AcquireLease(h, g, p, kind, owner, g.generation);
            var (g2, r2) := AcquireLease(h, g1, p, kind, owner, g.generation);
            && r1.Ok? && r2 == r1 && OverCounted(g2, p)
            && (var g3 := ReleasedAll(g2, ids); Evict(g3, p, kind, g3.generation).1 == Err(ActiveLease))
            && var id := r1.value.leaseId;
               var (g3, r3) := ReleaseLease(g2, id);
               && r3 == Ok(()) && ReleaseLease(g3, id) == (g3, Err(InvalidLease))
               && LeasesOn(g3.leases, p) == {} && Evict(g3, p, kind, g.generation).1 == Err(ActiveLease)
  {
    hide LeaseId, Find;
    assert CountsOk(g.leases, p, g.pages[p]);
    var (g1, r1) := AcquireLease(h, g, p, kind, owner, g.generation);
    var (g2, r2) := AcquireLease(h, g1, p, kind, owner, g.generation);
    var id := r1.value.leaseId;
    assert (g2.leases - {id}).Keys <= g.leases.Keys;
    forall x | x in g2.leases - {id} ensures g2.leases[x].page != p {
      assert x !in LeasesOn(g.leases, p);
    }
    OnlyThisLease(g.leases, id, r1.value, p);
    assert g2.leases == g.leases[id := r1.value];
    ReleasesKeepOverCounted(g2, p, ids);
    OverCountedIsRefused(ReleasedAll(g2, ids), p, kind);
  }

  lemma OnlyThisLease(leases: Leases, id: Digest, lease: Lease, p: PageId)
    requires LeasesOn(leases, p) == {} && lease.page == p
    ensures |LeasesOn(leases[id := lease], p)| == 1
  {
    assert forall x :: x in leases && x != id ==> x !in LeasesOn(leases, p);
    assert LeasesOn(leases[id := lease], p) == {id};
  }
}
