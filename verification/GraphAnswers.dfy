/**
 What each operation of the graph answers and changes, on any graph: which error
 in which case, and what is left as it was.
 */
module GraphAnswers {
  import opened Wrappers
  import opened Arithmetic
  import opened LittleEndian
  import opened Digests
  import opened Identity
  import opened PageKey
  import opened PageRecord
  import opened GraphState
  import opened PrefixForest
  import PrefixWalks

  // ---- insertions -------------------------------------------------------------------------

  /** What an identity's closure says of it, field by field. */
  lemma ClosureHolds(h: Mixer, i: PrefixIdentity, generation: u64, epoch: u64)
    ensures var c := ClosureOf(h, i, generation, epoch);
            && c.modelRoot == i.modelRoot && c.tokenizerRoot == i.tokenizerRoot && c.ropeConfigRoot == i.ropeConfigRoot
            && c.tokenSequenceRoot == TokenRoot(h, i.tokenSequence) && c.kvType == i.kvType
            && c.codecVersion == i.codecVersion && c.runtimeGeneration == i.runtimeGeneration
            && c.graphGeneration == generation && c.decodeEpoch == epoch && c.authorityStateRoot == i.authorityStateRoot
            && c.layerHeadRoot
               == FromParts(h, [Le32(i.layerStart), Le32(i.layerEnd), Le32(i.headStart), Le32(i.headEnd)])
  {
  }

  /** What a node id is the digest of, part by part. */
  lemma NodeIdHolds(h: Mixer, i: PrefixIdentity, generation: u64)
    ensures exists parts :: |parts| == 12 && NodeId(h, i, generation) == FromParts(h, parts)
              && parts[0] == i.modelRoot && parts[1] == i.tokenizerRoot && parts[2] == TokenRoot(h, i.tokenSequence)
              && parts[3] == i.ropeConfigRoot && FromLe(parts[4]) == i.layerStart && FromLe(parts[5]) == i.layerEnd
              && FromLe(parts[6]) == i.headStart && FromLe(parts[7]) == i.headEnd && parts[8] == i.kvType
              && parts[9] == i.codecVersion && FromLe(parts[10]) == i.runtimeGeneration
              && parts[11] == i.authorityStateRoot
              && |parts[4]| == |parts[5]| == |parts[6]| == |parts[7]| == 4 && |parts[10]| == 8
  {
    var parts := NodeParts(i, TokenRoot(h, i.tokenSequence));
    Le32Reads(i.layerStart);
    Le32Reads(i.layerEnd);
    Le32Reads(i.headStart);
    Le32Reads(i.headEnd);
    Le64Reads(i.runtimeGeneration);
    hide Le32, Le64, FromLe, TokenBytes;
    assert |parts| == 12 && NodeId(h, i, generation) == FromParts(h, parts);
  }

  /** What a closure root is the digest of. */
  lemma ClosureRootHolds(h: Mixer, c: Closure)
    ensures exists parts :: |parts| == 11 && ClosureRoot(h, c) == FromParts(h, parts)
              && parts[0] == c.modelRoot && parts[1] == c.tokenizerRoot && parts[2] == c.tokenSequenceRoot
              && parts[3] == c.ropeConfigRoot && parts[4] == c.layerHeadRoot && parts[5] == c.kvType
              && parts[6] == c.codecVersion && FromLe(parts[7]) == c.runtimeGeneration
              && FromLe(parts[8]) == c.graphGeneration && FromLe(parts[9]) == c.decodeEpoch
              && parts[10] == c.authorityStateRoot && |parts[7]| == |parts[8]| == |parts[9]| == 8
  {
    var parts := ClosureParts(c);
    Le64Reads(c.runtimeGeneration);
    Le64Reads(c.graphGeneration);
    Le64Reads(c.decodeEpoch);
    hide Le64, FromLe;
    assert |parts| == 11 && ClosureRoot(h, c) == FromParts(h, parts);
  }

  /** A node as it is first stored. */
  ghost predicate FreshNode(h: Mixer, g: Graph, id: Digest, node: Node, identity: PrefixIdentity) {
    && node.id == id && node.identity == identity && node.depth == |identity.tokenSequence|
    && node.closure == ClosureOf(h, identity, g.generation, 0) && node.graphGeneration == g.generation
    && node.children == map[] && node.pages == [] && node.referenceCount == 0 && node.activeLeases == 0
  }

  /** A root inserted: one root and one fresh node more, or over what stood there, and nothing else. */
  lemma InsertRootChanges(h: Mixer, g: Graph, identity: PrefixIdentity)
    requires InsertRoot(h, g, identity).1.Ok?
    ensures var g', id := InsertRoot(h, g, identity).0, NodeId(h, identity, g.generation);
            && g'.roots.Keys == g.roots.Keys + {id} && g'.nodes.Keys == g.nodes.Keys + {id}
            && FreshNode(h, g, id, g'.nodes[id], identity)
            && g'.nodes[id].parent == None && g'.nodes[id].incomingToken == None
            && (forall r :: r in g.roots ==> g'.roots[r] == g.roots[r])
            && (forall n :: n in g.nodes && n != id ==> g'.nodes[n] == g.nodes[n])
            && g'.generation == g.generation && g'.pages == g.pages && g'.leases == g.leases
  {
    hide NodeId, ClosureOf;
  }

  /** A child added under another id than its parent's: that node, the parent's link to it, and nothing else. */
  lemma ExtendChanges(h: Mixer, g: Graph, parent: Digest, token: u32, identity: PrefixIdentity)
    requires Extend(h, g, parent, token, identity).1.Ok? && NodeId(h, identity, g.generation) != parent
    ensures var g', id := Extend(h, g, parent, token, identity).0, NodeId(h, identity, g.generation);
            && g'.nodes.Keys == g.nodes.Keys + {id} && parent in g.nodes
            && FreshNode(h, g, id, g'.nodes[id], identity)
            && g'.nodes[id].parent == Some(parent) && g'.nodes[id].incomingToken == Some(token)
            && g'.nodes[parent].children.Keys == g.nodes[parent].children.Keys + {token}
            && g'.nodes[parent].children[token] == id
            && (forall t :: t in g.nodes[parent].children ==>
                  g'.nodes[parent].children[t] == g.nodes[parent].children[t])
            && g'.nodes[parent].(children := map[]) == g.nodes[parent].(children := map[])
            && (forall n :: n in g.nodes && n != id && n != parent ==> g'.nodes[n] == g.nodes[n])
            && g'.generation == g.generation && g'.roots == g.roots && g'.pages == g.pages && g'.leases == g.leases
  {
    hide NodeId, ClosureOf, ClosureRoot, ExtendsTokens;
  }

  // ---- pages ----------------------------------------------------------------------------------

  /** The ranges of a page are not empty, but for its heads, which may be one point. */
  predicate RangesOk(p: PageId) {
    p.tokenStart < p.tokenEnd && p.layerStart < p.layerEnd && p.headStart <= p.headEnd
  }

  /** The page lies inside its node's tokens, in its node's runtime generation. */
  predicate InsideNode(node: Node, p: PageId) {
    p.tokenEnd <= |node.identity.tokenSequence| && p.logicalGeneration == node.identity.runtimeGeneration
  }

  lemma AttachAnswers(g: Graph, page: Record)
    ensures var (g', r), p := Attach(g, page), page.id;
            var known := p.node in g.nodes;
            && (r.Ok? <==> RangesOk(p) && known && InsideNode(g.nodes[p.node], p)
                           && page.closure == g.nodes[p.node].closure)
            && (r == Err(InvalidPage) <==> !RangesOk(p) || (known && !InsideNode(g.nodes[p.node], p)))
            && (r == Err(UnknownNode) <==> RangesOk(p) && !known)
            && (r == Err(DependencyMismatch) <==> RangesOk(p) && known && InsideNode(g.nodes[p.node], p)
                                                  && page.closure != g.nodes[p.node].closure)
            && (r.Err? ==> g' == g)
  {
  }

  /** A page attached: its record, its id on its node's list, and nothing else. */
  lemma AttachChanges(g: Graph, page: Record)
    requires Attach(g, page).1.Ok?
    ensures var g', n := Attach(g, page).0, page.id.node;
            && g'.pages.Keys == g.pages.Keys + {page.id} && g'.pages[page.id] == page
            && (forall q :: q in g.pages && q != page.id ==> g'.pages[q] == g.pages[q])
            && n in g.nodes && g'.nodes.Keys == g.nodes.Keys && g'.nodes[n].pages == g.nodes[n].pages + [page.id]
            && g'.nodes[n].(pages := []) == g.nodes[n].(pages := [])
            && (forall x :: x in g.nodes && x != n ==> g'.nodes[x] == g.nodes[x])
            && g'.generation == g.generation && g'.roots == g.roots && g'.leases == g.leases
  {
    hide Attachable;
  }

  /** Two graphs that differ in one page at most. */
  ghost predicate OnlyPage(g: Graph, g': Graph, p: PageId) {
    && g'.generation == g.generation && g'.roots == g.roots && g'.nodes == g.nodes && g'.pages.Keys == g.pages.Keys
    && forall q :: q in g.pages && q != p ==> g'.pages[q] == g.pages[q]
  }

  lemma AddAnswers(g: Graph, p: PageId, rep: Representation, expected: u64)
    ensures var (g', r) := AddRepresentation(g, p, rep, expected);
            && (r == Err(StaleGeneration(expected, g.generation)) <==> expected != g.generation)
            && (r == Err(UnknownPage) <==> expected == g.generation && p !in g.pages)
            && (r.Ok? <==> expected == g.generation && p in g.pages)
            && (r.Err? ==> g' == g)
            && (r.Ok? ==>
                  && OnlyPage(g, g', p) && g'.leases == g.leases
                  && g'.pages[p].(representations := []) == g.pages[p].(representations := [])
                  && forall kind :: Find(g'.pages[p].representations, kind)
                                    == if kind == rep.Kind() then Some(rep) else Find(g.pages[p].representations, kind))
  {
    hide Added, Find;
    if p in g.pages {
      forall kind
        ensures Find(Added(g.pages[p].representations, rep), kind)
                == if kind == rep.Kind() then Some(rep) else Find(g.pages[p].representations, kind)
      {
        FindAdded(g.pages[p].representations, rep, kind);
      }
    }
  }

  // ---- leases and evictions ---------------------------------------------------------------------

  lemma AcquireAnswers(h: Mixer, g: Graph, p: PageId, kind: Kind, owner: Text, expected: u64)
    ensures var (g', r) := AcquireLease(h, g, p, kind, owner, expected);
            var there := p in g.pages && exists rep :: rep in g.pages[p].representations && rep.Kind() == kind;
            && (r == Err(StaleGeneration(expected, g.generation)) <==> expected != g.generation)
            && (r == Err(UnknownPage) <==> expected == g.generation && p !in g.pages)
            && (r == Err(MissingRepresentation) <==> expected == g.generation && p in g.pages && !there)
            && (r.Ok? <==> expected == g.generation && there)
            && (r.Err? ==> g' == g)
  {
    hide LeaseId;
  }

  /** A lease taken: filed under its id, both counts of its page one higher, and nothing else. */
  lemma AcquireChanges(h: Mixer, g: Graph, p: PageId, kind: Kind, owner: Text, expected: u64)
    requires AcquireLease(h, g, p, kind, owner, expected).1.Ok?
    ensures var (g', r) := AcquireLease(h, g, p, kind, owner, expected);
            var lease := r.value;
            && lease.page == p && lease.kind == kind && lease.owner == owner && lease.generation == g.generation
            && lease.leaseId == LeaseId(h, p, owner, g.generation)
            && g'.leases.Keys == g.leases.Keys + {lease.leaseId} && g'.leases[lease.leaseId] == lease
            && (forall id :: id in g.leases && id != lease.leaseId ==> g'.leases[id] == g.leases[id])
            && OnlyPage(g, g', p) && p in g.pages
            && g'.pages[p].activeLeases == g.pages[p].activeLeases + 1
            && g'.pages[p].referenceCount == g.pages[p].referenceCount + 1
            && g'.pages[p].(activeLeases := 0, referenceCount := 0)
                 == g.pages[p].(activeLeases := 0, referenceCount := 0)
  {
    hide LeaseId, Find;
  }

  /** A known lease is gone in any case; its page's counts fall together, unless one is zero or the page is unknown. */
  lemma ReleaseLeaseAnswers(g: Graph, id: Digest)
    ensures var (g', r) := ReleaseLease(g, id);
            && (id !in g.leases ==> g' == g && r == Err(InvalidLease))
            && (id in g.leases ==>
                  var p := g.leases[id].page;
                  && g'.leases.Keys == g.leases.Keys - {id}
                  && (forall x :: x in g'.leases ==> g'.leases[x] == g.leases[x])
                  && OnlyPage(g, g', p)
                  && (r == Err(UnknownPage) <==> p !in g.pages)
                  && (r == Err(InvalidLease) <==>
                        p in g.pages && (g.pages[p].activeLeases == 0 || g.pages[p].referenceCount == 0))
                  && (r.Err? ==> g'.pages == g.pages)
                  && (r.Ok? ==>
                        && p in g.pages && g'.pages[p].activeLeases == g.pages[p].activeLeases - 1
                        && g'.pages[p].referenceCount == g.pages[p].referenceCount - 1
                        && g'.pages[p].(activeLeases := 0, referenceCount := 0)
                           == g.pages[p].(activeLeases := 0, referenceCount := 0)))
  {
  }

  lemma EvictAnswers(g: Graph, p: PageId, kind: Kind, expected: u64)
    ensures var (g', r) := Evict(g, p, kind, expected);
            var known := expected == g.generation && p in g.pages;
            var there := p in g.pages && exists rep :: rep in g.pages[p].representations && rep.Kind() == kind;
            && (r == Err(StaleGeneration(expected, g.generation)) <==> expected != g.generation)
            && (r == Err(UnknownPage) <==> expected == g.generation && p !in g.pages)
            && (r == Err(ActiveLease) <==> known && g.pages[p].activeLeases > 0)
            && (r == Err(Referenced) <==> known && g.pages[p].activeLeases == 0 && g.pages[p].referenceCount > 0)
            && (r == Err(MissingRepresentation) <==>
                  known && g.pages[p].activeLeases == 0 && g.pages[p].referenceCount == 0 && !there)
            && (r.Ok? <==> known && g.pages[p].activeLeases == 0 && g.pages[p].referenceCount == 0 && there)
            && (r.Err? ==> g' == g)
            && (r.Ok? ==> OnlyPage(g, g', p) && g'.leases == g.leases
                          && g'.pages[p].(representations := []) == g.pages[p].(representations := []))
  {
    hide Removed;
  }

  /** The generation goes up by one, from the last one back to zero, and nothing else changes. */
  lemma AdvanceChanges(g: Graph)
    ensures var g' := Advance(g);
            && g'.generation == (if g.generation == U64_MAX then 0 else g.generation + 1)
            && g'.roots == g.roots && g'.nodes == g.nodes && g'.pages == g.pages && g'.leases == g.leases
  {
  }

  // ---- reference counts -------------------------------------------------------------------

  /** A retain counts once more exactly the nodes that stand for a beginning of the node's tokens. */
  lemma RetainCountsPrefixes(h: Mixer, g: Graph, n: Digest)
    requires Forest(h, g) && n in g.nodes
    ensures ParentsAbove(g.nodes) && Ends(g.nodes, Some(n))
    ensures var (g', r) := Retain(g, n);
            && r.Ok? && g' == g.(nodes := g'.nodes) && g'.nodes.Keys == g.nodes.Keys
            && forall m :: m in g.nodes ==>
                 var more := if OnPathTo(g.nodes, n, m) then 1 else 0;
                 g'.nodes[m] == g.nodes[m].(referenceCount := g.nodes[m].referenceCount + more)
  {
    hide Forest, ParentsAbove, OnPathTo, Upward, Ends;
    ForestHasParentsAbove(h, g);
    PrefixWalks.RetainIs(g, n);
    forall m ensures m in Upward(g.nodes, Some(n)) <==> OnPathTo(g.nodes, n, m) {
      UpwardArePrefixes(h, g, n, m);
    }
  }

  /** Each answer of the closure check; it passes a page inside its node, of that node's closure and generation. */
  lemma ValidateAnswers(h: Mixer, g: Graph, p: PageId)
    ensures var r, known := ValidateClosure(h, g, p), p in g.pages && p.node in g.nodes;
            && (r == Err(MissingNode) <==> !known)
            && (known ==>
                  var page, node := g.pages[p], g.nodes[p.node];
                  var inside := page.id.tokenStart < page.id.tokenEnd <= |node.identity.tokenSequence|;
                  var same := ClosureRoot(h, page.closure) == ClosureRoot(h, node.closure);
                  var current := page.id.logicalGeneration == node.identity.runtimeGeneration;
                  && (r == Err(PrefixRangeOutsideNode) <==> !inside)
                  && (r == Err(RootMismatch) <==> inside && !same)
                  && (r == Err(GenerationMismatch) <==> inside && same && !current)
                  && (r.Ok? <==> inside && same && current))
  {
    hide ClosureRoot;
  }
}
