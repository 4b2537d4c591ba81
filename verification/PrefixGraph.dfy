/** The prefix graph, its maps updated in place. */
module PrefixGraph {
  import opened Wrappers
  import opened Arithmetic
  import LittleEndian
  import opened Digests
  import opened Identity
  import opened PageKey
  import opened PageRecord
  import opened GraphState
  import PrefixWalks
  import PrefixForest

  class PrefixGraph {
    const mixer: Mixer
    var generation: u64
    var roots: map<Digest, Root>
    var nodes: map<Digest, Node>
    var pages: map<PageId, Record>
    var leases: map<Digest, Lease>

    ghost function State(): Graph
      reads this
    {
      Graph(generation, roots, nodes, pages, leases)
    }

    constructor (mixer: Mixer)
      ensures State() == EMPTY && this.mixer == mixer
    {
      this.mixer := mixer;
      generation, roots, nodes, pages, leases := 1, map[], map[], map[], map[];
    }

    method InsertRoot(identity: PrefixIdentity) returns (r: Result<Root, GraphError>)
      modifies this
      ensures (State(), r) == GraphState.InsertRoot(mixer, old(State()), identity)
    {
      hide NodeId, ClosureOf;
      if identity.tokenSequence != [] {
        return Err(EmptyIdentity);
      }
      var id := NodeId(mixer, identity, generation);
      if id in roots {
        return Err(RootAlreadyExists);
      }
      var closure := ClosureOf(mixer, identity, generation, 0);
      var root := Root(id, identity, closure);
      roots := roots[id := root];
      nodes := nodes[id := Node(id, identity, closure, None, None, 0, map[], [], 0, 0, generation)];
      r := Ok(root);
    }

    method Extend(
      parentId: Digest, token: u32, identity: PrefixIdentity
    ) returns (r: Result<(Digest, Edge), GraphError>)
      modifies this
      ensures (State(), r) == GraphState.Extend(mixer, old(State()), parentId, token, identity)
    {
      hide NodeId, ClosureOf, ClosureRoot;
      if parentId !in nodes {
        return Err(UnknownNode);
      }
      var parent := nodes[parentId];
      var tokens := identity.tokenSequence;
      if |tokens| != parent.depth + 1 || tokens[..parent.depth] != parent.identity.tokenSequence
         || tokens[parent.depth] != token
      {
        return Err(InvalidTokenSequence);
      }
      if token in parent.children {
        return Err(DuplicateEdge);
      }
      var id := NodeId(mixer, identity, generation);
      var closure := ClosureOf(mixer, identity, generation, 0);
      var edge := Edge(parentId, id, token, parent.depth, ClosureRoot(mixer, closure), generation);
      nodes := nodes[id := Node(id, identity, closure, Some(parentId), Some(token), parent.depth + 1,
                                map[], [], 0, 0, generation)];
      nodes := nodes[parentId := nodes[parentId].(children := nodes[parentId].children[token := id])];
      r := Ok((id, edge));
    }

    method Lookup(rootId: Digest, tokens: seq<u32>) returns (r: Result<Option<Digest>, GraphError>)
      ensures r == PrefixForest.Lookup(State(), rootId, tokens)
    {
      var current := rootId;
      if rootId !in roots {
        return Err(UnknownRoot);
      }
      for i := 0 to |tokens|
        invariant PrefixForest.Walk(nodes, rootId, tokens[..i]) == Some(current)
      {
        assert tokens[..i + 1][..i] == tokens[..i];
        if current !in nodes || tokens[i] !in nodes[current].children {
          PrefixForest.WalkStaysLost(nodes, rootId, tokens, i + 1);
          return Ok(None);
        }
        current := nodes[current].children[tokens[i]];
      }
      assert tokens[..|tokens|] == tokens;
      r := Ok(Some(current));
    }

    /** Walks up from the node, counting every node it passes. */
    method RetainPrefix(n: Digest) returns (r: Result<(), GraphError>)
      requires Ends(nodes, Some(n))
      modifies this`nodes
      ensures (State(), r) == GraphState.Retain(old(State()), n)
    {
      hide EndsWithin, Retain;
      var current: Option<Digest> := Some(n);
      ghost var before, k := State(), SomeBound(nodes, Some(n));
      ghost var bound := k;
      PrefixWalks.RetainIsFrom(before, n, k);
      while current.Some?
        invariant EndsWithin(before.nodes, Some(n), bound) && EndsWithin(nodes, current, k)
        invariant RetainFrom(before.nodes, Some(n), bound) == RetainFrom(nodes, current, k)
        decreases k
      {
        RetainStep(nodes, current.value, k);
        var id := current.value;
        if id !in nodes {
          return Err(UnknownNode);
        }
        nodes := nodes[id := nodes[id].(referenceCount := nodes[id].referenceCount + 1)];
        current := nodes[id].parent;
        k := k - 1;
      }
      RetainDone(nodes, k);
      r := Ok(());
    }

    /** Walks up from the node, and stops with an error at the first zero count. */
    method ReleasePrefix(n: Digest) returns (r: Result<(), GraphError>)
      modifies this`nodes
      ensures (State(), r) == GraphState.Release(old(State()), n)
    {
      var current: Option<Digest> := Some(n);
      ghost var before := nodes;
      while current.Some?
        invariant ReleaseFrom(before, Some(n)) == ReleaseFrom(nodes, current)
        decreases TotalCount(nodes), current.Some?
      {
        var id := current.value;
        if id !in nodes {
          return Err(UnknownNode);
        }
        if nodes[id].referenceCount == 0 {
          return Err(Referenced);
        }
        CountFalls(nodes, id);
        nodes := nodes[id := nodes[id].(referenceCount := nodes[id].referenceCount - 1)];
        current := nodes[id].parent;
      }
      r := Ok(());
    }

    method AttachPage(page: Record) returns (r: Result<(), GraphError>)
      modifies this
      ensures (State(), r) == GraphState.Attach(old(State()), page)
    {
      if !page.id.Valid() {
        return Err(InvalidPage);
      }
      if page.id.node !in nodes {
        return Err(UnknownNode);
      }
      var node := nodes[page.id.node];
      if page.id.tokenEnd > |node.identity.tokenSequence|
         || page.id.logicalGeneration != node.identity.runtimeGeneration
      {
        return Err(InvalidPage);
      }
      if page.closure != node.closure {
        return Err(DependencyMismatch);
      }
      nodes := nodes[page.id.node := node.(pages := node.pages + [page.id])];
      pages := pages[page.id := page];
      r := Ok(());
    }

    method AddRepresentation(p: PageId, rep: Representation, expected: u64) returns (r: Result<(), GraphError>)
      modifies this`pages
      ensures (State(), r) == GraphState.AddRepresentation(old(State()), p, rep, expected)
    {
      if expected != generation {
        return Err(StaleGeneration(expected, generation));
      }
      if p !in pages {
        return Err(UnknownPage);
      }
      pages := pages[p := pages[p].(representations := Added(pages[p].representations, rep))];
      r := Ok(());
    }

    method Lease(p: PageId, kind: Kind, owner: Text, expected: u64) returns (r: Result<GraphState.Lease, GraphError>)
      modifies this`pages, this`leases
      ensures (State(), r) == GraphState.AcquireLease(mixer, old(State()), p, kind, owner, expected)
    {
      hide Find, FromParts, Key;
      if expected != generation {
        return Err(StaleGeneration(expected, generation));
      }
      if p !in pages {
        return Err(UnknownPage);
      }
      if Find(pages[p].representations, kind).None? {
        return Err(MissingRepresentation);
      }
      var page := pages[p];
      pages := pages[p := page.(activeLeases := page.activeLeases + 1, referenceCount := page.referenceCount + 1)];
      var leaseId := FromParts(mixer, [Key(p), owner, LittleEndian.Le64(generation)]);
      var lease := GraphState.Lease(leaseId, p, kind, generation, owner);
      leases := leases[leaseId := lease];
      r := Ok(lease);
    }

    method ReleaseLease(leaseId: Digest) returns (r: Result<(), GraphError>)
      modifies this`pages, this`leases
      ensures (State(), r) == GraphState.ReleaseLease(old(State()), leaseId)
    {
      if leaseId !in leases {
        return Err(InvalidLease);
      }
      var lease := leases[leaseId];
      leases := leases - {leaseId};
      if lease.page !in pages {
        return Err(UnknownPage);
      }
      var page := pages[lease.page];
      if page.activeLeases == 0 || page.referenceCount == 0 {
        return Err(InvalidLease);
      }
      pages := pages[lease.page := page.(activeLeases := page.activeLeases - 1,
                                         referenceCount := page.referenceCount - 1)];
      r := Ok(());
    }

    method Evict(p: PageId, kind: Kind, expected: u64) returns (r: Result<Representation, GraphError>)
      modifies this`pages
      ensures (State(), r) == GraphState.Evict(old(State()), p, kind, expected)
    {
      if expected != generation {
        return Err(StaleGeneration(expected, generation));
      }
      if p !in pages {
        return Err(UnknownPage);
      }
      var page := pages[p];
      if page.activeLeases != 0 {
        return Err(ActiveLease);
      }
      if page.referenceCount != 0 {
        return Err(Referenced);
      }
      var index := Position(page.representations, kind);
      if index.None? {
        return Err(MissingRepresentation);
      }
      pages := pages[p := page.(representations := Removed(page.representations, index.value))];
      r := Ok(page.representations[index.value]);
    }

    method AdvanceGeneration() returns (g: u64)
      modifies this`generation
      ensures State() == Advance(old(State())) && g == generation
    {
      generation := (generation + 1) % TWO_64;
      g := generation;
    }
  }

  // ---- the retain loop --------------------------------------------------------------------

  ghost function SomeBound(nodes: Nodes, from: Option<Digest>): (k: nat)
    requires Ends(nodes, from)
    ensures EndsWithin(nodes, from, k)
  {
    var k: nat :| EndsWithin(nodes, from, k);
    k
  }

  lemma RetainStep(nodes: Nodes, id: Digest, k: nat)
    requires EndsWithin(nodes, Some(id), k)
    ensures id !in nodes ==> RetainFrom(nodes, Some(id), k) == (nodes, Err(UnknownNode))
    ensures id in nodes ==>
              var nodes' := nodes[id := Counted(nodes[id], 1)];
              && k > 0 && EndsWithin(nodes', nodes[id].parent, k - 1)
              && RetainFrom(nodes, Some(id), k) == RetainFrom(nodes', nodes[id].parent, k - 1)
  {
    if id in nodes {
      CountKeepsEnds(nodes, id, 1, nodes[id].parent, k - 1);
    }
  }

  lemma RetainDone(nodes: Nodes, k: nat)
    ensures EndsWithin(nodes, None, k) && RetainFrom(nodes, None, k) == (nodes, Ok(()))
  {
  }
}
