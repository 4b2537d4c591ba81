/**
 What runs of graph operations keep. Each theorem asks of a run only what it
 needs: no digest collision for the walks to end, new node ids for the forest,
 matched releases for the counts, and its own conditions for the leases.
 */
module GraphRuns {
  import opened Wrappers
  import opened Arithmetic
  import opened Digests
  import opened Identity
  import opened PageKey
  import opened PageRecord
  import opened GraphState
  import opened PrefixWalks
  import opened PrefixForest
  import opened PageLeases
  import Counts = RefCounts

  datatype Op =
    | DoInsertRoot(identity: PrefixIdentity)
    | DoExtend(parent: Digest, token: u32, identity: PrefixIdentity)
    | DoRetain(node: Digest)
    | DoRelease(node: Digest)
    | DoAttach(record: Record)
    | DoAdd(page: PageId, rep: Representation, expected: u64)
    | DoAcquire(page: PageId, kind: Kind, owner: Text, expected: u64)
    | DoReleaseLease(lease: Digest)
    | DoEvict(page: PageId, kind: Kind, expected: u64)
    | DoAdvance
  {
    predicate AddsNode() {
      DoInsertRoot? || DoExtend?
    }

    predicate Walks() {
      DoRetain? || DoRelease?
    }
  }

  /** The operation returns: only a retain whose parent chain loops goes on forever. */
  ghost predicate Returns(g: Graph, op: Op) {
    op.DoRetain? ==> Ends(g.nodes, Some(op.node))
  }

  ghost function Apply(h: Mixer, g: Graph, op: Op): Graph
    requires Returns(g, op)
  {
    match op
    case DoInsertRoot(identity) => InsertRoot(h, g, identity).0
    case DoExtend(parent, token, identity) => Extend(h, g, parent, token, identity).0
    case DoRetain(n) => Retain(g, n).0
    case DoRelease(n) => Release(g, n).0
    case DoAttach(record) => Attach(g, record).0
    case DoAdd(p, rep, expected) => AddRepresentation(g, p, rep, expected).0
    case DoAcquire(p, kind, owner, expected) => AcquireLease(h, g, p, kind, owner, expected).0
    case DoReleaseLease(id) => ReleaseLease(g, id).0
    case DoEvict(p, kind, expected) => Evict(g, p, kind, expected).0
    case DoAdvance => Advance(g)
  }

  ghost predicate Step(h: Mixer, g: Graph, op: Op, g': Graph) {
    Returns(g, op) && g' == Apply(h, g, op)
  }

  /** Any operations, in any order, from the empty graph: the states before and after each. */
  ghost predicate Run(h: Mixer, states: seq<Graph>, ops: seq<Op>) {
    && |states| == |ops| + 1 && states[0] == EMPTY
    && forall i :: 0 <= i < |ops| ==> Step(h, states[i], ops[i], states[i + 1])
  }

  // ---- what the other operations leave alone -------------------------------------------

  /** Nodes keep identity, closure and place in the tree; only counts and page lists move. */
  ghost predicate SameTree(nodes: Nodes, nodes': Nodes) {
    && nodes'.Keys == nodes.Keys
    && forall n :: n in nodes ==>
         nodes'[n] == nodes[n].(pages := nodes'[n].pages, referenceCount := nodes'[n].referenceCount)
  }

  ghost predicate SameCounts(nodes: Nodes, nodes': Nodes) {
    forall n :: n in nodes && n in nodes' ==> nodes'[n].referenceCount == nodes[n].referenceCount
  }

  lemma SameTreeKeepsLinks(nodes: Nodes, nodes': Nodes)
    requires SameTree(nodes, nodes') && Linked(nodes)
    ensures Linked(nodes')
  {
    hide ExtendsTokens;
    forall n | n in nodes' ensures ParentOk(nodes', n) && ChildrenOk(nodes', n) {
      assert ParentOk(nodes, n) && ChildrenOk(nodes, n);
    }
  }

  lemma SameTreeKeepsNames(h: Mixer, nodes: Nodes, nodes': Nodes)
    requires SameTree(nodes, nodes') && Named(h, nodes)
    ensures Named(h, nodes')
  {
    hide NodeId, ClosureOf;
    forall n | n in nodes' ensures NodeOk(h, n, nodes'[n]) {
      assert NodeOk(h, n, nodes[n]);
    }
  }

  lemma SameTreeKeepsRest(g: Graph, nodes': Nodes)
    requires SameTree(g.nodes, nodes')
    ensures RootsOk(g.roots, g.nodes) ==> RootsOk(g.roots, nodes')
    ensures Families(g.nodes) ==> Families(nodes')
    ensures Counts.SameParents(g.nodes, nodes') && (ParentsAbove(g.nodes) ==> ParentsAbove(nodes'))
  {
    hide SameFamily;
  }

  lemma SameTreeKeepsForest(h: Mixer, g: Graph, g': Graph)
    requires SameTree(g.nodes, g'.nodes) && Forest(h, g) && g'.roots == g.roots
    ensures Forest(h, g')
  {
    hide Linked, Named, RootsOk, Families;
    SameTreeKeepsLinks(g.nodes, g'.nodes);
    SameTreeKeepsNames(h, g.nodes, g'.nodes);
    SameTreeKeepsRest(g, g'.nodes);
  }

  lemma CountKeepsTree(nodes: Nodes, id: Digest, change: int, nodes': Nodes)
    requires id in nodes && nodes[id].referenceCount + change >= 0
    requires SameTree(nodes[id := Counted(nodes[id], change)], nodes')
    ensures SameTree(nodes, nodes')
  {
  }

  lemma {:induction false} RetainKeepsTree(nodes: Nodes, from: Option<Digest>, k: nat)
    requires EndsWithin(nodes, from, k)
    ensures SameTree(nodes, RetainFrom(nodes, from, k).0)
    decreases k
  {
    hide SameTree;
    if from.Some? && from.value in nodes {
      var nodes', above := nodes[from.value := Counted(nodes[from.value], 1)], nodes[from.value].parent;
      CountKeepsEnds(nodes, from.value, 1, above, k - 1);
      RetainKeepsTree(nodes', above, k - 1);
      CountKeepsTree(nodes, from.value, 1, RetainFrom(nodes', above, k - 1).0);
    } else {
      TreeIsSame(nodes);
    }
  }

  lemma {:induction false} ReleaseKeepsTree(nodes: Nodes, from: Option<Digest>)
    ensures SameTree(nodes, ReleaseFrom(nodes, from).0)
    decreases TotalCount(nodes)
  {
    hide SameTree;
    TreeIsSame(nodes);
    if from.Some? && from.value in nodes && nodes[from.value].referenceCount > 0 {
      var nodes', above := nodes[from.value := Counted(nodes[from.value], -1)], nodes[from.value].parent;
      CountFalls(nodes, from.value);
      ReleaseKeepsTree(nodes', above);
      CountKeepsTree(nodes, from.value, -1, ReleaseFrom(nodes', above).0);
    }
  }

  lemma TreeIsSame(nodes: Nodes)
    ensures SameTree(nodes, nodes) && SameCounts(nodes, nodes)
  {
  }

  lemma AttachKeepsTree(g: Graph, page: Record)
    ensures var g' := Attach(g, page).0;
            SameTree(g.nodes, g'.nodes) && SameCounts(g.nodes, g'.nodes) && g'.roots == g.roots
  {
    hide SameTree, SameCounts, Attachable;
    TreeIsSame(g.nodes);
    var g', n := Attach(g, page).0, page.id.node;
    if n in g.nodes && g'.nodes != g.nodes {
      OneNodeListed(g.nodes, n, g'.nodes[n].pages);
      assert g'.nodes == g.nodes[n := g.nodes[n].(pages := g'.nodes[n].pages)];
    }
  }

  lemma OneNodeListed(nodes: Nodes, n: Digest, pages: seq<PageId>)
    requires n in nodes
    ensures var nodes' := nodes[n := nodes[n].(pages := pages)]; SameTree(nodes, nodes') && SameCounts(nodes, nodes')
  {
  }

  /** Everything but the two insertions keeps the tree, and everything but the walks the counts. */
  lemma OtherOpsKeepTree(h: Mixer, g: Graph, op: Op)
    requires Returns(g, op) && !op.AddsNode()
    ensures SameTree(g.nodes, Apply(h, g, op).nodes) && Apply(h, g, op).roots == g.roots
    ensures !op.Walks() ==> SameCounts(g.nodes, Apply(h, g, op).nodes)
  {
    hide SameTree, SameCounts, Attach;
    TreeIsSame(g.nodes);
    if op.DoRetain? {
      hide RetainFrom;
      var k: nat :| EndsWithin(g.nodes, Some(op.node), k);
      RetainIsFrom(g, op.node, k);
      RetainKeepsTree(g.nodes, Some(op.node), k);
    } else if op.DoRelease? {
      hide ReleaseFrom;
      ReleaseKeepsTree(g.nodes, Some(op.node));
    } else if op.DoAttach? {
      AttachKeepsTree(g, op.record);
    } else {
      hide Apply;
      PageOpsKeepNodes(h, g, op);
    }
  }

  lemma PageOpsKeepNodes(h: Mixer, g: Graph, op: Op)
    requires !op.AddsNode() && !op.Walks() && !op.DoAttach?
    ensures Apply(h, g, op).nodes == g.nodes && Apply(h, g, op).roots == g.roots
  {
    hide LeaseId, Find, Position, Added;
  }

  // ---- the walks end ---------------------------------------------------------------------

  /** No identity stored so far collides with one that is inserted now. */
  ghost predicate Unclashing(h: Mixer, g: Graph, op: Op) {
    op.AddsNode() ==> Distinguished(h, g.nodes, op.identity)
  }

  /** An overwritten node has the identity it had, so the depth it had. */
  lemma OverwrittenDepth(h: Mixer, nodes: Nodes, identity: PrefixIdentity, generation: u64)
    requires Named(h, nodes) && Distinguished(h, nodes, identity)
    ensures var id := NodeId(h, identity, generation); id in nodes ==> nodes[id].depth == |identity.tokenSequence|
  {
    hide IdentityCollision, NodeId, ClosureOf, Named, Distinguished;
    var id := NodeId(h, identity, generation);
    if id in nodes {
      StoredIdentity(h, nodes, identity, generation);
      DepthOfNode(h, nodes, id);
    }
  }

  /** No child of what this node overwrites would lie as high as it. */
  ghost predicate StaysAboveChildren(nodes: Nodes, id: Digest, depth: nat) {
    forall n :: n in nodes && n != id && nodes[n].parent == Some(id) ==> nodes[n].depth > depth
  }

  /** Storing a child, over whatever node, keeps every parent above its children exactly on these conditions. */
  lemma WithChildKeepsParentsAboveIff(nodes: Nodes, parent: Digest, token: u32, child: Node)
    requires ParentsAbove(nodes) && parent in nodes && child.parent == Some(parent)
    requires child.depth == nodes[parent].depth + 1
    ensures ParentsAbove(WithChild(nodes, parent, token, child))
            <==> child.id != parent && StaysAboveChildren(nodes, child.id, child.depth)
  {
    var nodes' := WithChild(nodes, parent, token, child);
    if child.id == parent {
      assert nodes'[parent].parent == Some(parent);
    } else {
      forall n | n in nodes && n != child.id
        ensures n in nodes' && nodes'[n].parent == nodes[n].parent && nodes'[n].depth == nodes[n].depth
      {
      }
    }
  }

  /** So for every extension of a graph: the exact condition, whatever the digests. */
  lemma ExtendKeepsParentsAboveIff(h: Mixer, g: Graph, parent: Digest, token: u32, identity: PrefixIdentity)
    requires ParentsAbove(g.nodes) && Extend(h, g, parent, token, identity).1.Ok?
    ensures var id := NodeId(h, identity, g.generation);
            ParentsAbove(Extend(h, g, parent, token, identity).0.nodes)
            <==> id != parent && StaysAboveChildren(g.nodes, id, |identity.tokenSequence|)
  {
    hide NodeId, ClosureOf, ClosureRoot, ParentsAbove, StaysAboveChildren, WithChild;
    WithChildKeepsParentsAboveIff(g.nodes, parent, token,
                                  NewNode(h, identity, Some(parent), Some(token), g.generation));
  }

  /** A node overwritten at the depth it had. */
  lemma SameDepthStaysAbove(nodes: Nodes, id: Digest, depth: nat)
    requires ParentsAbove(nodes) && (id in nodes ==> nodes[id].depth == depth)
    ensures StaysAboveChildren(nodes, id, depth)
  {
  }

  lemma NamedExtend(h: Mixer, nodes: Nodes, parent: Digest, token: u32, child: Node)
    requires Named(h, nodes) && parent in nodes && child.id != parent && NodeOk(h, child.id, child)
    ensures Named(h, WithChild(nodes, parent, token, child))
  {
    hide NodeId, ClosureOf;
    var nodes' := WithChild(nodes, parent, token, child);
    forall n | n in nodes' ensures NodeOk(h, n, nodes'[n]) {
      assert n != child.id ==> NodeOk(h, n, nodes[n]);
    }
  }

  /** Extending, agreeing or not, over an old node or not, keeps every parent above its child. */
  lemma ExtendKeepsParentsAbove(h: Mixer, g: Graph, parent: Digest, token: u32, identity: PrefixIdentity)
    requires Named(h, g.nodes) && ParentsAbove(g.nodes) && Distinguished(h, g.nodes, identity)
    ensures var g' := Extend(h, g, parent, token, identity).0; Named(h, g'.nodes) && ParentsAbove(g'.nodes)
  {
    hide NodeId, ClosureOf, ClosureRoot, Named, ParentsAbove, Distinguished, WithChild;
    if Extend(h, g, parent, token, identity).1.Ok? {
      var child := NewNode(h, identity, Some(parent), Some(token), g.generation);
      OverwrittenDepth(h, g.nodes, identity, g.generation);
      SameDepthStaysAbove(g.nodes, child.id, child.depth);
      WithChildKeepsParentsAboveIff(g.nodes, parent, token, child);
      NamedExtend(h, g.nodes, parent, token, child);
    }
  }

  lemma RootStaysAbove(nodes: Nodes, id: Digest, root: Node)
    requires ParentsAbove(nodes) && root.parent.None? && root.depth == 0
    ensures ParentsAbove(nodes[id := root])
  {
  }

  lemma InsertRootKeepsParentsAbove(h: Mixer, g: Graph, identity: PrefixIdentity)
    requires Named(h, g.nodes) && ParentsAbove(g.nodes)
    ensures var g' := InsertRoot(h, g, identity).0; Named(h, g'.nodes) && ParentsAbove(g'.nodes)
  {
    hide NodeId, ClosureOf, Named, ParentsAbove;
    var (g', r) := InsertRoot(h, g, identity);
    if r.Ok? {
      var id := NodeId(h, identity, g.generation);
      RootStaysAbove(g.nodes, id, g'.nodes[id]);
      NewNodeIsNamed(h, g.nodes, id, g'.nodes[id]);
    }
  }

  lemma StepKeepsParentsAbove(h: Mixer, g: Graph, op: Op, g': Graph)
    requires Step(h, g, op, g') && Unclashing(h, g, op) && Named(h, g.nodes) && ParentsAbove(g.nodes)
    ensures Named(h, g'.nodes) && ParentsAbove(g'.nodes)
  {
    hide Named, ParentsAbove, Distinguished, InsertRoot, Extend, SameTree;
    match op
    case DoInsertRoot(identity) => InsertRootKeepsParentsAbove(h, g, identity);
    case DoExtend(parent, token, identity) => ExtendKeepsParentsAbove(h, g, parent, token, identity);
    case DoRetain(_) => TreeStepKeepsParentsAbove(h, g, op, g');
    case DoRelease(_) => TreeStepKeepsParentsAbove(h, g, op, g');
    case DoAttach(_) => TreeStepKeepsParentsAbove(h, g, op, g');
    case DoAdd(_, _, _) => TreeStepKeepsParentsAbove(h, g, op, g');
    case DoAcquire(_, _, _, _) => TreeStepKeepsParentsAbove(h, g, op, g');
    case DoReleaseLease(_) => TreeStepKeepsParentsAbove(h, g, op, g');
    case DoEvict(_, _, _) => TreeStepKeepsParentsAbove(h, g, op, g');
    case DoAdvance => TreeStepKeepsParentsAbove(h, g, op, g');
  }

  lemma TreeStepKeepsParentsAbove(h: Mixer, g: Graph, op: Op, g': Graph)
    requires Step(h, g, op, g') && !op.AddsNode() && Named(h, g.nodes) && ParentsAbove(g.nodes)
    ensures Named(h, g'.nodes) && ParentsAbove(g'.nodes)
  {
    hide Named, ParentsAbove, Apply, SameTree;
    OtherOpsKeepTree(h, g, op);
    SameTreeKeepsNames(h, g.nodes, g'.nodes);
    SameTreeKeepsRest(g, g'.nodes);
  }

  /** In every run without a digest collision the next retain or release returns, whatever was done before. */
  lemma {:induction false} RunWalksEnd(h: Mixer, states: seq<Graph>, ops: seq<Op>, n: nat, next: Op)
    requires Run(h, states, ops) && n < |states|
    requires forall i :: 0 <= i < n ==> Unclashing(h, states[i], ops[i])
    ensures Named(h, states[n].nodes) && ParentsAbove(states[n].nodes) && Returns(states[n], next)
    decreases n
  {
    hide Unclashing, Step, Named, ParentsAbove;
    if n == 0 {
      EmptyKeepsAll(h);
    } else {
      RunWalksEnd(h, states, ops, n - 1, next);
      StepKeepsParentsAbove(h, states[n - 1], ops[n - 1], states[n]);
    }
    if next.DoRetain? {
      AboveEnds(states[n].nodes, Some(next.node));
    }
  }

  lemma EmptyKeepsAll(h: Mixer)
    ensures Named(h, EMPTY.nodes) && ParentsAbove(EMPTY.nodes) && Forest(h, EMPTY) && Families(EMPTY.nodes)
    ensures Counts.Balanced(EMPTY.nodes, []) && Leased(h, EMPTY.pages, EMPTY.leases) && PagesFit(EMPTY)
  {
  }

  /**
   A root and its first child: parents stay above children exactly when the two ids
   differ. Where they collide the child is its own parent, no retain of it
   returns, and every release of it fails.
   */
  lemma RootChildLoopsIff(h: Mixer, identity: PrefixIdentity, token: u32)
    requires identity.tokenSequence == []
    ensures var id, child := NodeId(h, identity, 1), identity.(tokenSequence := [token]);
            var (g, r) := Extend(h, InsertRoot(h, EMPTY, identity).0, id, token, child);
            && r.Ok? && (ParentsAbove(g.nodes) <==> NodeId(h, child, 1) != id)
            && (Ends(g.nodes, Some(id)) <==> NodeId(h, child, 1) != id)
            && (NodeId(h, child, 1) == id ==>
                  id in g.nodes && g.nodes[id].parent == Some(id) && Release(g, id).1 == Err(Referenced))
  {
    hide NodeId, ClosureOf, ClosureRoot, ReleaseFrom, EndsWithin;
    var id, child := NodeId(h, identity, 1), identity.(tokenSequence := [token]);
    assert child.tokenSequence[..0] == [];
    var g0 := InsertRoot(h, EMPTY, identity).0;
    var g := Extend(h, g0, id, token, child).0;
    ExtendKeepsParentsAboveIff(h, g0, id, token, child);
    if NodeId(h, child, 1) == id {
      LoopNeverEnds(g.nodes, id);
      LoopedReleaseFails(g.nodes, Some(id));
    } else {
      AboveEnds(g.nodes, Some(id));
    }
  }

  // ---- the forest --------------------------------------------------------------------------

  /** An insertion that succeeds gives an id that no node has: `node(id)` was none. */
  ghost predicate NewIds(h: Mixer, g: Graph, op: Op) {
    match op
    case DoInsertRoot(identity) => InsertRoot(h, g, identity).1.Ok? ==> NodeId(h, identity, g.generation) !in g.nodes
    case DoExtend(parent, token, identity) =>
      Extend(h, g, parent, token, identity).1.Ok? ==> NodeId(h, identity, g.generation) !in g.nodes
    case DoRetain(_) => true
    case DoRelease(_) => true
    case DoAttach(_) => true
    case DoAdd(_, _, _) => true
    case DoAcquire(_, _, _, _) => true
    case DoReleaseLease(_) => true
    case DoEvict(_, _, _) => true
    case DoAdvance => true
  }

  /** Any operation keeps the forest exactly when it inserts under a new id or not at all. */
  lemma StepKeepsForestIff(h: Mixer, g: Graph, op: Op, g': Graph)
    requires Step(h, g, op, g') && Forest(h, g)
    ensures Forest(h, g') <==> NewIds(h, g, op)
  {
    hide Forest, NodeId, SameTree;
    if op.DoInsertRoot? {
      hide Extend;
      InsertRootKeepsForest(h, g, op.identity);
      assert InsertRoot(h, g, op.identity).1.Err? ==> g' == g;
    } else if op.DoExtend? {
      hide InsertRoot;
      ExtendKeepsForest(h, g, op.parent, op.token, op.identity);
      assert Extend(h, g, op.parent, op.token, op.identity).1.Err? ==> g' == g;
    } else {
      hide Apply;
      OtherOpsKeepTree(h, g, op);
      SameTreeKeepsForest(h, g, g');
    }
  }

  /** A page hangs on a node whose closure it has and whose tokens cover it. */
  ghost predicate PageFits(nodes: Nodes, p: PageId, page: Record) {
    && page.id == p && p.Valid() && p.node in nodes
    && page.closure == nodes[p.node].closure && Attachable(nodes[p.node], page)
  }

  ghost predicate PagesFit(g: Graph) {
    forall p :: p in g.pages ==> PageFits(g.nodes, p, g.pages[p])
  }

  /** Old nodes keep identity and closure. */
  ghost predicate KeepsNodes(nodes: Nodes, nodes': Nodes) {
    forall n :: n in nodes
        ==> n in nodes' && nodes'[n].identity == nodes[n].identity && nodes'[n].closure == nodes[n].closure
  }

  /** Every page is an old one, up to representations and counts. */
  ghost predicate KeepsPages(pages: map<PageId, Record>, pages': map<PageId, Record>) {
    forall p :: p in pages' ==> p in pages && pages'[p].id == pages[p].id && pages'[p].closure == pages[p].closure
  }

  lemma PagesStillFit(g: Graph, g': Graph)
    requires PagesFit(g) && KeepsNodes(g.nodes, g'.nodes) && KeepsPages(g.pages, g'.pages)
    ensures PagesFit(g')
  {
    forall p | p in g'.pages ensures PageFits(g'.nodes, p, g'.pages[p]) {
      assert PageFits(g.nodes, p, g.pages[p]);
    }
  }

  lemma AttachKeepsFit(g: Graph, page: Record)
    requires PagesFit(g)
    ensures PagesFit(Attach(g, page).0)
  {
    var g' := Attach(g, page).0;
    forall p | p in g'.pages ensures PageFits(g'.nodes, p, g'.pages[p]) {
      assert p != page.id ==> PageFits(g.nodes, p, g.pages[p]);
    }
  }

  lemma InsertionsKeepNodes(h: Mixer, g: Graph, op: Op)
    requires op.AddsNode() && NewIds(h, g, op)
    ensures KeepsNodes(g.nodes, Apply(h, g, op).nodes) && Apply(h, g, op).pages == g.pages
  {
    hide NodeId, ClosureOf, ClosureRoot, ExtendsTokens, WithChild;
    if op.DoExtend? && Extend(h, g, op.parent, op.token, op.identity).1.Ok? {
      ChildKeepsNodes(g.nodes, op.parent, op.token,
                      NewNode(h, op.identity, Some(op.parent), Some(op.token), g.generation));
    }
  }

  lemma ChildKeepsNodes(nodes: Nodes, parent: Digest, token: u32, child: Node)
    requires parent in nodes && child.id !in nodes
    ensures KeepsNodes(nodes, WithChild(nodes, parent, token, child))
  {
  }

  lemma TreeKeepsNodes(nodes: Nodes, nodes': Nodes)
    requires SameTree(nodes, nodes')
    ensures KeepsNodes(nodes, nodes')
  {
  }

  lemma AttachStepKeepsFit(h: Mixer, g: Graph, op: Op)
    requires op.DoAttach? && PagesFit(g)
    ensures PagesFit(Apply(h, g, op))
  {
    hide PagesFit, Attach;
    AttachKeepsFit(g, op.record);
  }

  lemma PagesAreKept(pages: map<PageId, Record>)
    ensures KeepsPages(pages, pages)
  {
  }

  lemma OtherOpsKeepPages(h: Mixer, g: Graph, op: Op)
    requires Returns(g, op) && !op.DoAttach? && !op.AddsNode()
    ensures KeepsPages(g.pages, Apply(h, g, op).pages)
  {
    hide RetainFrom, ReleaseFrom, Ends, LeaseId, Find, Position, Added, KeepsPages;
    PagesAreKept(g.pages);
    var pages' := Apply(h, g, op).pages;
    match op
    case DoAdd(p, _, _) => OnePageChanged(g.pages, p, pages');
    case DoAcquire(p, _, _, _) => OnePageChanged(g.pages, p, pages');
    case DoReleaseLease(id) =>
      if id in g.leases {
        OnePageChanged(g.pages, g.leases[id].page, pages');
      }
    case DoEvict(p, _, _) => OnePageChanged(g.pages, p, pages');
    case _ =>
  }

  lemma OnePageChanged(pages: map<PageId, Record>, p: PageId, pages': map<PageId, Record>)
    ensures p in pages && p in pages' && pages' == pages[p := pages'[p]]
            && pages'[p].id == pages[p].id && pages'[p].closure == pages[p].closure
            ==> KeepsPages(pages, pages')
  {
  }

  lemma StepKeepsFit(h: Mixer, g: Graph, op: Op, g': Graph)
    requires Step(h, g, op, g') && NewIds(h, g, op) && PagesFit(g)
    ensures PagesFit(g')
  {
    hide PagesFit, KeepsNodes, KeepsPages, NewIds, SameTree, Apply;
    if op.DoAttach? {
      AttachStepKeepsFit(h, g, op);
    } else if op.AddsNode() {
      InsertionsKeepNodes(h, g, op);
      PagesAreKept(g.pages);
      PagesStillFit(g, g');
    } else {
      OtherOpsKeepPages(h, g, op);
      OtherOpsKeepTree(h, g, op);
      TreeKeepsNodes(g.nodes, g'.nodes);
      PagesStillFit(g, g');
    }
  }

  /** In every run whose insertions give new ids the graph is a forest and every page validates. */
  lemma {:induction false} RunIsForest(h: Mixer, states: seq<Graph>, ops: seq<Op>, n: nat)
    requires Run(h, states, ops) && n < |states|
    requires forall i :: 0 <= i < n ==> NewIds(h, states[i], ops[i])
    ensures Forest(h, states[n]) && PagesFit(states[n])
    ensures forall p :: p in states[n].pages ==> ValidateClosure(h, states[n], p) == Ok(())
    decreases n
  {
    hide NewIds, Step, Forest, PagesFit, ValidateClosure;
    if n == 0 {
      EmptyKeepsAll(h);
    } else {
      RunIsForest(h, states, ops, n - 1);
      StepKeepsForestIff(h, states[n - 1], ops[n - 1], states[n]);
      StepKeepsFit(h, states[n - 1], ops[n - 1], states[n]);
    }
    forall p | p in states[n].pages ensures ValidateClosure(h, states[n], p) == Ok(()) {
      FittingPageValidates(h, states[n], p);
    }
  }

  lemma FittingPageValidates(h: Mixer, g: Graph, p: PageId)
    requires PagesFit(g) && p in g.pages
    ensures ValidateClosure(h, g, p) == Ok(())
  {
    hide ClosureRoot;
    assert PageFits(g.nodes, p, g.pages[p]);
  }

  // ---- where new ids come from --------------------------------------------------------------

  /** No collision, and children agree with their parents off the tokens. */
  ghost predicate Agreed(h: Mixer, g: Graph, op: Op) {
    && Unclashing(h, g, op)
    && (op.DoExtend? && op.parent in g.nodes ==> SameFamily(op.identity, g.nodes[op.parent].identity))
  }

  lemma AgreedIsNew(h: Mixer, g: Graph, op: Op)
    requires Forest(h, g) && Families(g.nodes) && Agreed(h, g, op)
    ensures NewIds(h, g, op)
  {
    hide NodeId, ClosureOf, ClosureRoot, ExtendsTokens, Forest, Families, Distinguished, SameFamily;
    if op.DoInsertRoot? && InsertRoot(h, g, op.identity).1.Ok? {
      NewRootIsNew(h, g, op.identity);
    } else if op.DoExtend? && Extend(h, g, op.parent, op.token, op.identity).1.Ok? {
      AgreeingChildIsNew(h, g, op.parent, op.token, op.identity);
    }
  }

  lemma StepKeepsFamilies(h: Mixer, g: Graph, op: Op, g': Graph)
    requires Step(h, g, op, g') && Forest(h, g) && Families(g.nodes) && Agreed(h, g, op)
    ensures Families(g'.nodes)
  {
    hide NodeId, Forest, Families, Distinguished, SameFamily, SameTree;
    AgreedIsNew(h, g, op);
    LinksOf(h, g);
    if op.DoInsertRoot? {
      hide Extend;
      if InsertRoot(h, g, op.identity).1.Ok? {
        InsertRootKeepsFamilies(h, g, op.identity);
      }
    } else if op.DoExtend? {
      hide InsertRoot;
      if Extend(h, g, op.parent, op.token, op.identity).1.Ok? {
        ExtendKeepsFamilies(h, g, op.parent, op.token, op.identity);
      }
    } else {
      hide Apply;
      OtherOpsKeepTree(h, g, op);
      SameTreeKeepsRest(g, g'.nodes);
    }
  }

  lemma LinksOf(h: Mixer, g: Graph)
    requires Forest(h, g)
    ensures Linked(g.nodes) && Named(h, g.nodes) && ParentsAbove(g.nodes)
  {
    hide Linked, Named, RootsOk;
    LinkedHasParentsAbove(h, g.nodes);
  }

  /** In every run of agreeing insertions without a collision, each insertion gives a new id. */
  lemma {:induction false} AgreedRunHasNewIds(h: Mixer, states: seq<Graph>, ops: seq<Op>, n: nat)
    requires Run(h, states, ops) && n < |states|
    requires forall i :: 0 <= i < |ops| ==> Agreed(h, states[i], ops[i])
    ensures Forest(h, states[n]) && Families(states[n].nodes)
    ensures n < |ops| ==> NewIds(h, states[n], ops[n])
    decreases n
  {
    hide Agreed, NewIds, Step, Forest, Families;
    if n == 0 {
      EmptyKeepsAll(h);
    } else {
      AgreedRunHasNewIds(h, states, ops, n - 1);
      StepKeepsForestIff(h, states[n - 1], ops[n - 1], states[n]);
      StepKeepsFamilies(h, states[n - 1], ops[n - 1], states[n]);
    }
    if n < |ops| {
      AgreedIsNew(h, states[n], ops[n]);
    }
  }

  // ---- reference counts -------------------------------------------------------------------------

  function IndexOf(held: seq<Digest>, n: Digest): (i: nat)
    requires n in held
    ensures i < |held| && held[i] == n
  {
    if held[0] == n then 0 else 1 + IndexOf(held[1..], n)
  }

  /** The outstanding retains after an operation. */
  function HeldAfter(g: Graph, held: seq<Digest>, op: Op): seq<Digest> {
    if op.DoRetain? && op.node in g.nodes then held + [op.node]
    else if op.DoRelease? && op.node in held then Removed(held, IndexOf(held, op.node))
    else held
  }

  /** The outstanding retains before the n-th operation of a run. */
  function HeldAt(states: seq<Graph>, ops: seq<Op>, n: nat): seq<Digest>
    requires n <= |ops| && |ops| < |states|
  {
    if n == 0 then [] else HeldAfter(states[n - 1], HeldAt(states, ops, n - 1), ops[n - 1])
  }

  /** A release is matched by an outstanding retain. */
  ghost predicate Matched(held: seq<Digest>, op: Op) {
    op.DoRelease? ==> op.node in held
  }

  /** One more node, without a count; the old ones keep their place and their counts. */
  ghost predicate GrewBy(nodes: Nodes, nodes': Nodes, n: Digest) {
    && n !in nodes && nodes'.Keys == nodes.Keys + {n} && nodes'[n].referenceCount == 0
    && Counts.SameParents(nodes, nodes') && SameCounts(nodes, nodes')
  }

  lemma InsertionGrows(h: Mixer, g: Graph, op: Op)
    requires op.AddsNode() && NewIds(h, g, op)
    ensures var g' := Apply(h, g, op); g' == g || GrewBy(g.nodes, g'.nodes, NodeId(h, op.identity, g.generation))
  {
    hide NodeId, ClosureOf, ClosureRoot, ExtendsTokens;
  }

  lemma SameTreeKeepsBalance(nodes: Nodes, nodes': Nodes, held: seq<Digest>)
    requires SameTree(nodes, nodes') && SameCounts(nodes, nodes') && ParentsAbove(nodes')
             && Counts.Balanced(nodes, held)
    ensures Counts.Balanced(nodes', held)
  {
    hide Counts.Holds, Upward;
    forall n | n in nodes'
      ensures Counts.AllNodes(nodes', held) && nodes'[n].referenceCount == Counts.Holds(nodes', held, n)
    {
      Counts.HoldsSame(nodes, nodes', held, n);
    }
    assert forall i :: 0 <= i < |held| ==> held[i] in nodes;
  }

  /** Page and lease operations, disciplined or not, never touch a reference count. */
  lemma PageStepKeepsBalance(h: Mixer, g: Graph, op: Op, g': Graph, held: seq<Digest>)
    requires Step(h, g, op, g') && !op.AddsNode() && !op.Walks() && Counts.Balanced(g.nodes, held)
    ensures Counts.Balanced(g'.nodes, held)
  {
    hide Apply, SameTree, SameCounts, Counts.Holds;
    OtherOpsKeepTree(h, g, op);
    SameTreeKeepsRest(g, g'.nodes);
    SameTreeKeepsBalance(g.nodes, g'.nodes, held);
  }

  lemma InsertionKeepsBalance(h: Mixer, g: Graph, op: Op, g': Graph, held: seq<Digest>)
    requires Step(h, g, op, g') && op.AddsNode() && NewIds(h, g, op) && Counts.Balanced(g.nodes, held) && Forest(h, g)
    ensures Counts.Balanced(g'.nodes, held)
  {
    InsertionGrows(h, g, op);
    StepKeepsForestIff(h, g, op, g');
    LinksOf(h, g');
    hide Apply, NewIds, Forest, NodeId, Counts.Balanced;
    if g' != g {
      GrowthIsBalanced(g.nodes, g'.nodes, held, NodeId(h, op.identity, g.generation));
    }
  }

  lemma GrowthIsBalanced(nodes: Nodes, nodes': Nodes, held: seq<Digest>, n: Digest)
    requires GrewBy(nodes, nodes', n) && ParentsAbove(nodes') && Counts.Balanced(nodes, held)
    ensures Counts.Balanced(nodes', held)
  {
    hide Counts.Balanced, Counts.SameParents;
    Counts.GrowthKeepsBalance(nodes, nodes', held, n);
  }

  lemma StepKeepsBalance(h: Mixer, g: Graph, op: Op, g': Graph, held: seq<Digest>)
    requires Step(h, g, op, g') && NewIds(h, g, op) && Matched(held, op) && Forest(h, g)
             && Counts.Balanced(g.nodes, held)
    ensures Counts.Balanced(g'.nodes, HeldAfter(g, held, op))
    ensures op.DoRelease? ==> ParentsAbove(g.nodes) && Release(g, op.node).1 == Ok(())
  {
    hide NewIds, Forest, Counts.Balanced;
    if op.AddsNode() {
      InsertionKeepsBalance(h, g, op, g', held);
    } else if op.DoRetain? {
      hide Upward, Raised;
      if op.node in g.nodes {
        Counts.RetainKeepsBalance(g, held, op.node);
      }
    } else if op.DoRelease? {
      LinksOf(h, g);
      Counts.MatchedReleaseSucceeds(g, held, IndexOf(held, op.node));
    } else {
      PageStepKeepsBalance(h, g, op, g', held);
    }
  }

  /**
   In every run of new ids and matched releases, whatever it does to pages and
   leases, each node counts the outstanding retains of its subtree and every
   release succeeds.
   */
  lemma {:induction false} RunIsBalanced(h: Mixer, states: seq<Graph>, ops: seq<Op>, n: nat)
    requires Run(h, states, ops) && n < |states|
    requires forall i :: 0 <= i < n ==> NewIds(h, states[i], ops[i]) && Matched(HeldAt(states, ops, i), ops[i])
    ensures Counts.Balanced(states[n].nodes, HeldAt(states, ops, n))
    ensures n > 0 && ops[n - 1].DoRelease? ==>
              ParentsAbove(states[n - 1].nodes) && Release(states[n - 1], ops[n - 1].node).1 == Ok(())
    decreases n
  {
    hide NewIds, Matched, Step, Forest, Counts.Balanced, HeldAfter;
    if n == 0 {
      EmptyKeepsAll(h);
    } else {
      RunIsBalanced(h, states, ops, n - 1);
      RunIsForest(h, states, ops, n - 1);
      StepKeepsBalance(h, states[n - 1], ops[n - 1], states[n], HeldAt(states, ops, n - 1));
    }
  }

  /** Releasing everything a run still holds brings every count back to zero. */
  lemma AllReleasedMeansZero(h: Mixer, states: seq<Graph>, ops: seq<Op>, n: nat, x: Digest)
    requires Run(h, states, ops) && n < |states|
    requires forall i :: 0 <= i < n ==> NewIds(h, states[i], ops[i]) && Matched(HeldAt(states, ops, i), ops[i])
    requires HeldAt(states, ops, n) == [] && x in states[n].nodes
    ensures states[n].nodes[x].referenceCount == 0
  {
    hide NewIds, Matched, Run;
    RunIsBalanced(h, states, ops, n);
    Counts.NoneHeldMeansZero(states[n].nodes);
  }

  // ---- an unmatched release -----------------------------------------------------------------------

  /** A root and one child, by their ids, parents, depths and counts. */
  ghost predicate Pair(g: Graph, root: Digest, child: Digest, rootCount: nat, childCount: nat) {
    && root != child && g.nodes.Keys == {root, child}
    && g.nodes[root].parent == None && g.nodes[child].parent == Some(root)
    && g.nodes[root].depth == 0 && g.nodes[child].depth == 1
    && g.nodes[root].referenceCount == rootCount && g.nodes[child].referenceCount == childCount
  }

  lemma PairIsBuilt(h: Mixer, identity: PrefixIdentity, token: u32)
    requires identity.tokenSequence == []
    requires NodeId(h, identity, 1) != NodeId(h, identity.(tokenSequence := [token]), 1)
    ensures var root, child := NodeId(h, identity, 1), identity.(tokenSequence := [token]);
            Pair(Extend(h, InsertRoot(h, EMPTY, identity).0, root, token, child).0, root, NodeId(h, child, 1), 0, 0)
  {
    hide NodeId, ClosureOf, ClosureRoot;
    assert identity.(tokenSequence := [token]).tokenSequence[..0] == [];
  }

  lemma PairRetained(g: Graph, root: Digest, child: Digest)
    requires Pair(g, root, child, 0, 0)
    ensures Ends(g.nodes, Some(child)) && Pair(Retain(g, child).0, root, child, 1, 1)
  {
    Counts.WalksFromChild(g, root, child);
    RetainIs(g, child);
    hide Upward;
  }

  lemma PairReleased(g: Graph, root: Digest, child: Digest)
    requires Pair(g, root, child, 1, 1)
    ensures ParentsAbove(g.nodes) && Release(g, root).1 == Ok(()) && Pair(Release(g, root).0, root, child, 0, 1)
  {
    Counts.WalksFromChild(g, root, child);
    Counts.ReleaseSucceedsIff(g, root);
    ReleaseIs(g, root);
    hide Upward, ReleaseReach;
  }

  lemma PairReleasedAgain(g: Graph, root: Digest, child: Digest)
    requires Pair(g, root, child, 0, 1)
    ensures ParentsAbove(g.nodes) && Release(g, child).1 == Err(Referenced)
            && Pair(Release(g, child).0, root, child, 0, 0)
  {
    Counts.WalksFromChild(g, root, child);
    Counts.ReleaseSucceedsIff(g, child);
    ReleaseIs(g, child);
    assert ReleaseReach(g.nodes, Some(root)) == ({}, false);
    assert ReleaseReach(g.nodes, Some(child)) == ({child} + {}, false);
    hide Upward, ReleaseReach;
  }

  /**
   Five operations from the empty graph after which a release fails above its
   node: the child is retained, its root released, and the child's own release
   then takes its count and fails.
   */
  lemma ReleaseFailsPartWay(h: Mixer, identity: PrefixIdentity, token: u32)
    returns (g1: Graph, g2: Graph, g3: Graph, g4: Graph, g5: Graph)
    requires identity.tokenSequence == []
    requires NodeId(h, identity, 1) != NodeId(h, identity.(tokenSequence := [token]), 1)
    ensures var extended := identity.(tokenSequence := [token]);
            var root, child := NodeId(h, identity, 1), NodeId(h, extended, 1);
            && Step(h, EMPTY, DoInsertRoot(identity), g1) && Step(h, g1, DoExtend(root, token, extended), g2)
            && Step(h, g2, DoRetain(child), g3) && Step(h, g3, DoRelease(root), g4) && Step(h, g4, DoRelease(child), g5)
            && ParentsAbove(g4.nodes) && Release(g4, child).1 == Err(Referenced)
            && Pair(g4, root, child, 0, 1) && Pair(g5, root, child, 0, 0)
  {
    g1, g2 := TwoInsertions(h, identity, token);
    hide NodeId, Step, Pair, Release, ParentsAbove;
    g3, g4, g5 := ThreeWalks(h, g2, NodeId(h, identity, 1), NodeId(h, identity.(tokenSequence := [token]), 1));
  }

  lemma TwoInsertions(h: Mixer, identity: PrefixIdentity, token: u32) returns (g1: Graph, g2: Graph)
    requires identity.tokenSequence == []
    requires NodeId(h, identity, 1) != NodeId(h, identity.(tokenSequence := [token]), 1)
    ensures var root, extended := NodeId(h, identity, 1), identity.(tokenSequence := [token]);
            && Step(h, EMPTY, DoInsertRoot(identity), g1) && Step(h, g1, DoExtend(root, token, extended), g2)
            && Pair(g2, root, NodeId(h, extended, 1), 0, 0)
  {
    PairIsBuilt(h, identity, token);
    hide NodeId, InsertRoot, Extend, Pair;
    g1 := InsertRoot(h, EMPTY, identity).0;
    g2 := Extend(h, g1, NodeId(h, identity, 1), token, identity.(tokenSequence := [token])).0;
  }

  lemma ThreeWalks(h: Mixer, g2: Graph, root: Digest, child: Digest) returns (g3: Graph, g4: Graph, g5: Graph)
    requires Pair(g2, root, child, 0, 0)
    ensures Step(h, g2, DoRetain(child), g3) && Step(h, g3, DoRelease(root), g4) && Step(h, g4, DoRelease(child), g5)
    ensures Pair(g4, root, child, 0, 1) && ParentsAbove(g4.nodes) && Release(g4, child).1 == Err(Referenced)
    ensures Pair(g5, root, child, 0, 0)
  {
    hide Pair, Retain, Release, ParentsAbove, Ends;
    PairRetained(g2, root, child);
    g3 := Retain(g2, child).0;
    PairReleased(g3, root, child);
    g4 := Release(g3, root).0;
    PairReleasedAgain(g4, root, child);
    g5 := Release(g4, child).0;
  }

  // ---- leases ------------------------------------------------------------------------------------

  /** An attached record counts the live leases on its page and has their kinds; a new lease has an id not yet live. */
  ghost predicate LeaseSafe(h: Mixer, g: Graph, op: Op) {
    match op
    case DoAttach(page) =>
      Attach(g, page).1.Ok? ==>
        && CountsOk(g.leases, page.id, page)
        && forall id :: id in LeasesOn(g.leases, page.id) ==> Has(page, g.leases[id].kind)
    case DoAcquire(p, kind, owner, expected) =>
      AcquireLease(h, g, p, kind, owner, expected).1.Ok? ==> LeaseId(h, p, owner, g.generation) !in g.leases
    case DoInsertRoot(_) => true
    case DoExtend(_, _, _) => true
    case DoRetain(_) => true
    case DoRelease(_) => true
    case DoAdd(_, _, _) => true
    case DoReleaseLease(_) => true
    case DoEvict(_, _, _) => true
    case DoAdvance => true
  }

  lemma TreeOpsKeepPages(h: Mixer, g: Graph, op: Op)
    requires Returns(g, op) && (op.AddsNode() || op.Walks() || op.DoAdvance?)
    ensures Apply(h, g, op).pages == g.pages && Apply(h, g, op).leases == g.leases
  {
    hide NodeId, ClosureOf, ClosureRoot, WithChild, ExtendsTokens, RetainFrom, ReleaseFrom, Ends;
  }

  /** Any operation on any graph keeps the leases exact precisely when it is lease-safe. */
  lemma StepKeepsLeasedIff(h: Mixer, g: Graph, op: Op, g': Graph)
    requires Step(h, g, op, g') && Leased(h, g.pages, g.leases)
    ensures Leased(h, g'.pages, g'.leases) <==> LeaseSafe(h, g, op)
  {
    hide Leased;
    match op
    case DoAttach(page) =>
      hide CountsOk, LeasesOn, Has;
      AttachKeepsLeased(h, g, page);
      assert Attach(g, page).1.Err? ==> g' == g;
    case DoAcquire(p, kind, owner, expected) =>
      hide LeaseId, Find;
      AcquireKeepsLeased(h, g, p, kind, owner, expected);
      assert AcquireLease(h, g, p, kind, owner, expected).1.Err? ==> g' == g;
    case DoAdd(p, rep, expected) =>
      hide AddRepresentation;
      AddKeepsLeased(h, g, p, rep, expected);
    case DoReleaseLease(id) =>
      hide ReleaseLease;
      ReleaseKeepsLeased(h, g, id);
    case DoEvict(p, kind, expected) =>
      hide Evict;
      EvictKeepsLeased(h, g, p, kind, expected);
    case DoInsertRoot(_) => hide Apply; TreeOpsKeepPages(h, g, op);
    case DoExtend(_, _, _) => hide Apply; TreeOpsKeepPages(h, g, op);
    case DoRetain(_) => hide Apply; TreeOpsKeepPages(h, g, op);
    case DoRelease(_) => hide Apply; TreeOpsKeepPages(h, g, op);
    case DoAdvance => hide Apply; TreeOpsKeepPages(h, g, op);
  }

  /** In every lease-safe run counts equal live leases and every leased kind is present. */
  lemma {:induction false} RunIsLeased(h: Mixer, states: seq<Graph>, ops: seq<Op>, n: nat)
    requires Run(h, states, ops) && n < |states|
    requires forall i :: 0 <= i < n ==> LeaseSafe(h, states[i], ops[i])
    ensures Leased(h, states[n].pages, states[n].leases)
    decreases n
  {
    hide LeaseSafe, Step, Leased;
    if n == 0 {
      EmptyKeepsAll(h);
    } else {
      RunIsLeased(h, states, ops, n - 1);
      StepKeepsLeasedIff(h, states[n - 1], ops[n - 1], states[n]);
    }
  }

  /** A page attached for the first time with zero counts is lease-safe. */
  lemma NewPageIsLeaseSafe(h: Mixer, g: Graph, page: Record)
    requires Leased(h, g.pages, g.leases) && page.id !in g.pages && page.activeLeases == page.referenceCount == 0
    ensures LeaseSafe(h, g, DoAttach(page))
  {
    hide Leased, Attach, Has;
    NewPageHasNoLeases(h, g, page.id);
  }

  /** So is a lease that its owner does not hold yet in this generation, short of a collision. */
  lemma NewHolderIsLeaseSafe(h: Mixer, g: Graph, p: PageId, kind: Kind, owner: Text, expected: u64)
    requires Leased(h, g.pages, g.leases)
    requires forall id :: id in g.leases ==>
               !SameHolder(g.leases[id], p, owner, g.generation)
                   && !LeaseCollision(h, g.leases[id], p, owner, g.generation)
    ensures LeaseSafe(h, g, DoAcquire(p, kind, owner, expected))
  {
    hide Leased, LeaseId, SameHolder, LeaseCollision, AcquireLease;
    IdTakenIff(h, g, p, owner, g.generation);
  }

  lemma OnlyLeaseOpsChangeLeases(h: Mixer, g: Graph, op: Op)
    requires Returns(g, op) && !op.DoAcquire? && !op.DoReleaseLease?
    ensures Apply(h, g, op).leases == g.leases
  {
    hide NodeId, ClosureOf, ClosureRoot, WithChild, ExtendsTokens, RetainFrom, ReleaseFrom, Ends, Position,
        Added, Removed;
  }

  /** A live lease outlives every lease-safe operation but its own release. */
  lemma LeaseSurvives(h: Mixer, g: Graph, op: Op, g': Graph, id: Digest)
    requires Step(h, g, op, g') && LeaseSafe(h, g, op) && id in g.leases && op != DoReleaseLease(id)
    ensures id in g'.leases && g'.leases[id] == g.leases[id]
  {
    hide LeaseId, Find;
    if !op.DoAcquire? && !op.DoReleaseLease? {
      hide Apply;
      OnlyLeaseOpsChangeLeases(h, g, op);
    }
  }

  /** Along any further lease-safe operations that do not release it, the leased kind stays and eviction is refused. */
  lemma {:induction false} LeasedKindStays(h: Mixer, states: seq<Graph>, ops: seq<Op>, m: nat, n: nat, id: Digest)
    requires Run(h, states, ops) && m <= n < |states| && id in states[m].leases
    requires forall i :: 0 <= i < n ==> LeaseSafe(h, states[i], ops[i])
    requires forall i :: m <= i < n ==> ops[i] != DoReleaseLease(id)
    ensures var lease, g := states[m].leases[id], states[n];
            && id in g.leases && g.leases[id] == lease
            && lease.page in g.pages && Has(g.pages[lease.page], lease.kind)
            && Evict(g, lease.page, lease.kind, g.generation).1 == Err(ActiveLease)
    decreases n
  {
    hide LeaseSafe, Step, Leased, Has, Evict;
    if m < n {
      LeasedKindStays(h, states, ops, m, n - 1, id);
      LeaseSurvives(h, states[n - 1], ops[n - 1], states[n], id);
    }
    RunIsLeased(h, states, ops, n);
    LeasedPageStays(h, states[n], id);
  }

  lemma LeasedPageStays(h: Mixer, g: Graph, id: Digest)
    requires Leased(h, g.pages, g.leases) && id in g.leases
    ensures var lease := g.leases[id];
            && lease.page in g.pages && Has(g.pages[lease.page], lease.kind)
            && Evict(g, lease.page, lease.kind, g.generation).1 == Err(ActiveLease)
  {
    hide LeaseId, Find, Position;
    var lease := g.leases[id];
    assert LeaseOk(h, g.pages, id, lease) && CountsOk(g.leases, lease.page, g.pages[lease.page]);
    assert id in LeasesOn(g.leases, lease.page);
  }

  /** Whatever else is done, short of attaching the page again, an over-counted page stays so. */
  lemma StepKeepsOverCounted(h: Mixer, g: Graph, op: Op, g': Graph, p: PageId)
    requires Step(h, g, op, g') && OverCounted(g, p) && (op.DoAttach? ==> op.record.id != p)
    ensures OverCounted(g', p)
  {
    hide LeasesOn;
    match op
    case DoAcquire(q, kind, owner, expected) => AcquireKeepsOverCounted(h, g, p, q, kind, owner, expected);
    case DoReleaseLease(id) => ReleaseKeepsOverCounted(g, p, id);
    case DoAttach(_) => hide Attachable;
    case DoAdd(_, _, _) => hide Added;
    case DoEvict(_, _, _) => hide Position, Removed;
    case DoInsertRoot(_) => hide Apply; TreeOpsKeepPages(h, g, op);
    case DoExtend(_, _, _) => hide Apply; TreeOpsKeepPages(h, g, op);
    case DoRetain(_) => hide Apply; TreeOpsKeepPages(h, g, op);
    case DoRelease(_) => hide Apply; TreeOpsKeepPages(h, g, op);
    case DoAdvance => hide Apply; TreeOpsKeepPages(h, g, op);
  }

  /** So a page leased twice by one owner in one generation is never evicted again, whatever is released. */
  lemma {:induction false} RunNeverEvicts(
    h: Mixer, states: seq<Graph>, ops: seq<Op>, m: nat, n: nat, p: PageId, kind: Kind
  )
    requires Run(h, states, ops) && m <= n < |states| && OverCounted(states[m], p)
    requires forall i :: m <= i < n && ops[i].DoAttach? ==> ops[i].record.id != p
    ensures OverCounted(states[n], p) && Evict(states[n], p, kind, states[n].generation).1 == Err(ActiveLease)
    decreases n
  {
    hide Step, OverCounted, Evict;
    if m < n {
      RunNeverEvicts(h, states, ops, m, n - 1, p, kind);
      StepKeepsOverCounted(h, states[n - 1], ops[n - 1], states[n], p);
    }
    OverCountedIsRefused(states[n], p, kind);
  }

  // ---- one representation of a kind ----------------------------------------------------------------

  ghost predicate OneEachKind(g: Graph) {
    forall p :: p in g.pages ==> OneEach(g.pages[p].representations)
  }

  /**
   Any operation keeps at most one representation of a kind on every page, exactly when an attached record has it
   so.
   */
  lemma StepKeepsOneEachIff(h: Mixer, g: Graph, op: Op, g': Graph)
    requires Step(h, g, op, g') && OneEachKind(g)
    ensures OneEachKind(g')
            <==> (op.DoAttach? && Attach(g, op.record).1.Ok? ==> OneEach(op.record.representations))
  {
    hide OneEach;
    match op
    case DoAttach(record) => AttachKeepsOneEachIff(g, record);
    case DoAdd(p, rep, _) =>
      hide Added;
      if p in g.pages {
        AddedKeepsOneEach(g.pages[p].representations, rep);
      }
    case DoEvict(p, kind, expected) =>
      hide Position, Removed, Find;
      if Evict(g, p, kind, expected).1.Ok? {
        EvictRemovesKind(g, p, kind, expected, kind);
      }
    case DoAcquire(_, _, _, _) => hide Find, LeaseId;
    case DoReleaseLease(_) =>
    case DoInsertRoot(_) => hide Apply; TreeOpsKeepPages(h, g, op);
    case DoExtend(_, _, _) => hide Apply; TreeOpsKeepPages(h, g, op);
    case DoRetain(_) => hide Apply; TreeOpsKeepPages(h, g, op);
    case DoRelease(_) => hide Apply; TreeOpsKeepPages(h, g, op);
    case DoAdvance => hide Apply; TreeOpsKeepPages(h, g, op);
  }

  lemma AttachKeepsOneEachIff(g: Graph, page: Record)
    requires OneEachKind(g)
    ensures OneEachKind(Attach(g, page).0) <==> (Attach(g, page).1.Ok? ==> OneEach(page.representations))
  {
    hide OneEach, Attachable;
    var (g', r) := Attach(g, page);
    if r.Ok? {
      assert g'.pages == g.pages[page.id := page];
      assert g'.pages[page.id] == page;
    }
  }

  lemma {:induction false} RunHasOneEach(h: Mixer, states: seq<Graph>, ops: seq<Op>, n: nat)
    requires Run(h, states, ops) && n < |states|
    requires forall i :: 0 <= i < n && ops[i].DoAttach? ==> OneEach(ops[i].record.representations)
    ensures OneEachKind(states[n])
    decreases n
  {
    hide Step, OneEach;
    if n > 0 {
      RunHasOneEach(h, states, ops, n - 1);
      hide OneEachKind;
      StepKeepsOneEachIff(h, states[n - 1], ops[n - 1], states[n]);
    }
  }
}
