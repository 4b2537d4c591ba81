/** The nodes form trees: parent links and child maps are inverse, and paths are token sequences. */
module PrefixForest {
  import opened Wrappers
  import opened Arithmetic
  import opened Digests
  import opened Identity
  import opened GraphState

  /** A node stands under its own id, with the depth and closure of its identity. */
  ghost predicate NodeOk(h: Mixer, n: Digest, node: Node) {
    && node.id == n && n == NodeId(h, node.identity, node.graphGeneration)
    && node.depth == |node.identity.tokenSequence|
    && node.closure == ClosureOf(h, node.identity, node.graphGeneration, 0)
  }

  /** The parent has this node as the child of its last token; a root has no tokens. */
  ghost predicate ParentOk(nodes: Nodes, n: Digest)
    requires n in nodes
  {
    var node := nodes[n];
    match node.parent
    case None => node.incomingToken == None && node.identity.tokenSequence == []
    case Some(p) =>
      && p in nodes && node.incomingToken.Some?
      && node.incomingToken.value in nodes[p].children && nodes[p].children[node.incomingToken.value] == n
      && ExtendsTokens(nodes[p].depth, nodes[p].identity, node.incomingToken.value, node.identity)
  }

  /** Every child has this node as its parent, reached by its token. */
  ghost predicate ChildrenOk(nodes: Nodes, n: Digest)
    requires n in nodes
  {
    forall t :: t in nodes[n].children ==>
      var c := nodes[n].children[t];
      c in nodes && nodes[c].parent == Some(n) && nodes[c].incomingToken == Some(t)
  }

  ghost predicate RootsOk(roots: map<Digest, Root>, nodes: Nodes) {
    && (forall r :: r in roots ==>
          r in nodes && nodes[r].parent.None? && roots[r] == Root(r, nodes[r].identity, nodes[r].closure))
    && (forall n :: n in nodes && nodes[n].parent.None? ==> n in roots)
  }

  ghost predicate Linked(nodes: Nodes) {
    forall n :: n in nodes ==> ParentOk(nodes, n) && ChildrenOk(nodes, n)
  }

  ghost predicate Named(h: Mixer, nodes: Nodes) {
    forall n :: n in nodes ==> NodeOk(h, n, nodes[n])
  }

  ghost predicate Forest(h: Mixer, g: Graph) {
    Named(h, g.nodes) && Linked(g.nodes) && RootsOk(g.roots, g.nodes)
  }

  lemma EmptyIsForest(h: Mixer)
    ensures Forest(h, EMPTY)
  {
  }

  lemma LinkedHasParentsAbove(h: Mixer, nodes: Nodes)
    requires Named(h, nodes) && Linked(nodes)
    ensures ParentsAbove(nodes)
  {
    forall n | n in nodes && nodes[n].parent.Some?
      ensures nodes[n].parent.value in nodes && nodes[nodes[n].parent.value].depth < nodes[n].depth
    {
      assert NodeOk(h, n, nodes[n]) && ParentOk(nodes, n);
    }
  }

  // ---- growing the forest --------------------------------------------------------------

  lemma NotOwnParent(nodes: Nodes, n: Digest)
    requires n in nodes && ParentOk(nodes, n) && nodes[n].depth == |nodes[n].identity.tokenSequence|
    ensures nodes[n].parent != Some(n)
  {
  }

  lemma NewRootIsRoot(roots: map<Digest, Root>, nodes: Nodes, id: Digest, newRoot: Node)
    requires RootsOk(roots, nodes) && newRoot.parent.None? && id !in nodes
    ensures RootsOk(roots[id := Root(id, newRoot.identity, newRoot.closure)], nodes[id := newRoot])
  {
  }

  lemma NewNodeIsNamed(h: Mixer, nodes: Nodes, id: Digest, node: Node)
    requires Named(h, nodes) && NodeOk(h, id, node)
    ensures Named(h, nodes[id := node])
  {
    hide NodeId, ClosureOf;
  }

  lemma NewRootIsLinked(nodes: Nodes, id: Digest, newRoot: Node)
    requires Linked(nodes) && id !in nodes
    requires newRoot.parent.None? && newRoot.incomingToken.None? && newRoot.identity.tokenSequence == []
             && newRoot.children == map[]
    ensures Linked(nodes[id := newRoot])
  {
    hide ExtendsTokens;
    var nodes' := nodes[id := newRoot];
    forall n | n in nodes' ensures ParentOk(nodes', n) && ChildrenOk(nodes', n) {
      if n != id {
        assert ParentOk(nodes, n) && ChildrenOk(nodes, n);
      }
    }
  }

  /** A new root keeps the forest exactly when no node has its id yet. */
  lemma InsertRootKeepsForest(h: Mixer, g: Graph, identity: PrefixIdentity)
    requires Forest(h, g)
    ensures var (g', r) := InsertRoot(h, g, identity);
            r.Ok? ==> (Forest(h, g') <==> NodeId(h, identity, g.generation) !in g.nodes)
  {
    hide NodeId, ClosureOf, Linked, Named, RootsOk;
    var id := NodeId(h, identity, g.generation);
    var (g', r) := InsertRoot(h, g, identity);
    if r.Ok? {
      if id in g.nodes {
        DepthOfNode(h, g.nodes, id);
        RootOverNode(g, id, g'.nodes[id]);
      } else {
        NewRootIsLinked(g.nodes, id, g'.nodes[id]);
        NewRootIsRoot(g.roots, g.nodes, id, g'.nodes[id]);
        NewNodeIsNamed(h, g.nodes, id, g'.nodes[id]);
      }
    }
  }

  /** A node that is not a root has a parent, which the overwriting node denies. */
  lemma RootOverNode(g: Graph, id: Digest, newRoot: Node)
    requires Linked(g.nodes) && RootsOk(g.roots, g.nodes) && id in g.nodes && id !in g.roots && newRoot.parent.None?
    requires g.nodes[id].depth == |g.nodes[id].identity.tokenSequence|
    ensures !Linked(g.nodes[id := newRoot])
  {
    assert ParentOk(g.nodes, id);
    NotOwnParent(g.nodes, id);
    assert !ChildrenOk(g.nodes[id := newRoot], g.nodes[id].parent.value);
  }

  ghost predicate ChildOfParent(nodes: Nodes, parent: Digest, token: u32, child: Node) {
    && parent in nodes && token !in nodes[parent].children
    && child.parent == Some(parent) && child.incomingToken == Some(token) && child.children == map[]
    && ExtendsTokens(nodes[parent].depth, nodes[parent].identity, token, child.identity)
  }

  lemma OldNodeStaysLinked(nodes: Nodes, parent: Digest, token: u32, child: Node, n: Digest)
    requires ChildOfParent(nodes, parent, token, child) && child.id !in nodes
    requires n in nodes && ParentOk(nodes, n) && ChildrenOk(nodes, n)
    ensures ParentOk(WithChild(nodes, parent, token, child), n) && ChildrenOk(WithChild(nodes, parent, token, child), n)
  {
    hide ExtendsTokens;
  }

  lemma NewNodeIsLinked(nodes: Nodes, parent: Digest, token: u32, child: Node)
    requires ChildOfParent(nodes, parent, token, child) && child.id !in nodes
    ensures ParentOk(WithChild(nodes, parent, token, child), child.id)
            && ChildrenOk(WithChild(nodes, parent, token, child), child.id)
  {
    hide ExtendsTokens;
  }

  lemma FreshChildIsLinked(nodes: Nodes, parent: Digest, token: u32, child: Node)
    requires Linked(nodes) && ChildOfParent(nodes, parent, token, child) && child.id !in nodes
    ensures Linked(WithChild(nodes, parent, token, child))
  {
    var nodes' := WithChild(nodes, parent, token, child);
    assert nodes'.Keys == nodes.Keys + {child.id};
    hide ParentOk, ChildrenOk, ChildOfParent, WithChild;
    forall n | n in nodes' ensures ParentOk(nodes', n) && ChildrenOk(nodes', n) {
      if n == child.id {
        NewNodeIsLinked(nodes, parent, token, child);
      } else {
        OldNodeStaysLinked(nodes, parent, token, child, n);
      }
    }
  }

  /** Storing a child over an existing node leaves a child map and a parent link in disagreement. */
  lemma OverwritingUnlinks(g: Graph, parent: Digest, token: u32, child: Node)
    requires Linked(g.nodes) && RootsOk(g.roots, g.nodes) && ChildOfParent(g.nodes, parent, token, child)
             && child.id in g.nodes
    requires g.nodes[child.id].depth == |g.nodes[child.id].identity.tokenSequence|
    ensures var nodes' := WithChild(g.nodes, parent, token, child); !(Linked(nodes') && RootsOk(g.roots, nodes'))
  {
    hide ExtendsTokens, Linked;
    var x := child.id;
    assert ParentOk(g.nodes, x) by { ParentOfNode(g.nodes, x); }
    if g.nodes[x].parent.None? {
      assert x in g.roots;
    } else {
      NotOwnParent(g.nodes, x);
      OldParentDisagrees(g.nodes, parent, token, child, g.nodes[x].parent.value, g.nodes[x].incomingToken.value);
    }
  }

  lemma ParentOfNode(nodes: Nodes, n: Digest)
    requires Linked(nodes) && n in nodes
    ensures ParentOk(nodes, n) && ChildrenOk(nodes, n)
  {
  }

  lemma OldParentDisagrees(nodes: Nodes, parent: Digest, token: u32, child: Node, q: Digest, t: u32)
    requires ChildOfParent(nodes, parent, token, child) && child.id in nodes
    requires q in nodes && q != child.id && t in nodes[q].children && nodes[q].children[t] == child.id
    ensures !Linked(WithChild(nodes, parent, token, child))
  {
    hide ExtendsTokens, ParentOk;
    var nodes' := WithChild(nodes, parent, token, child);
    assert t in nodes'[q].children && nodes'[q].children[t] == child.id;
    assert nodes'[child.id].parent == Some(parent) && nodes'[child.id].incomingToken == Some(token);
    assert !ChildrenOk(nodes', q);
  }

  /** A child keeps the forest exactly when no node has its id yet, whatever its identity. */
  lemma ExtendKeepsForest(h: Mixer, g: Graph, parent: Digest, token: u32, identity: PrefixIdentity)
    requires Forest(h, g)
    ensures var (g', r) := Extend(h, g, parent, token, identity);
            r.Ok? ==> (Forest(h, g') <==> NodeId(h, identity, g.generation) !in g.nodes)
  {
    hide NodeId, ClosureOf, ClosureRoot, ExtendsTokens, WithChild, Linked, RootsOk, Named;
    var (g', r) := Extend(h, g, parent, token, identity);
    if r.Ok? {
      var child := NewNode(h, identity, Some(parent), Some(token), g.generation);
      if child.id in g.nodes {
        DepthOfNode(h, g.nodes, child.id);
        OverwritingUnlinks(g, parent, token, child);
      } else {
        FreshChildIsLinked(g.nodes, parent, token, child);
        ChildIsNamed(h, g.nodes, parent, token, child);
        ChildIsNoRoot(g.roots, g.nodes, parent, token, child);
      }
    }
  }

  lemma DepthOfNode(h: Mixer, nodes: Nodes, n: Digest)
    requires Named(h, nodes) && n in nodes
    ensures NodeOk(h, n, nodes[n]) && nodes[n].depth == |nodes[n].identity.tokenSequence|
  {
    hide NodeId, ClosureOf;
  }

  lemma ChildIsNamed(h: Mixer, nodes: Nodes, parent: Digest, token: u32, child: Node)
    requires Named(h, nodes) && parent in nodes && child.id !in nodes && NodeOk(h, child.id, child)
    ensures Named(h, WithChild(nodes, parent, token, child))
  {
    hide NodeId, ClosureOf;
    var nodes' := WithChild(nodes, parent, token, child);
    forall n | n in nodes' ensures NodeOk(h, n, nodes'[n]) {
      if n != child.id {
        assert NodeOk(h, n, nodes[n]);
      }
    }
  }

  lemma ChildIsNoRoot(roots: map<Digest, Root>, nodes: Nodes, parent: Digest, token: u32, child: Node)
    requires RootsOk(roots, nodes) && parent in nodes && child.id !in nodes && child.parent.Some?
    ensures RootsOk(roots, WithChild(nodes, parent, token, child))
  {
  }

  // ---- when the id is new ---------------------------------------------------------------

  ghost predicate SameFamily(a: PrefixIdentity, b: PrefixIdentity) {
    a.(tokenSequence := []) == b.(tokenSequence := [])
  }

  /** Every child agrees with its parent off the token sequence. */
  ghost predicate Families(nodes: Nodes) {
    forall n :: n in nodes && nodes[n].parent.Some? && nodes[n].parent.value in nodes ==>
                  SameFamily(nodes[n].identity, nodes[nodes[n].parent.value].identity)
  }

  /** No stored identity collides with this one. */
  ghost predicate Distinguished(h: Mixer, nodes: Nodes, identity: PrefixIdentity) {
    forall n :: n in nodes ==> !IdentityCollision(h, nodes[n].identity, identity)
  }

  lemma StoredIdentity(h: Mixer, nodes: Nodes, identity: PrefixIdentity, generation: u64)
    requires Named(h, nodes) && Distinguished(h, nodes, identity) && NodeId(h, identity, generation) in nodes
    ensures nodes[NodeId(h, identity, generation)].identity == identity
  {
    hide NodeId, IdentityCollision;
    var n := NodeId(h, identity, generation);
    assert NodeOk(h, n, nodes[n]);
    SameIdSameIdentity(h, nodes[n].identity, nodes[n].graphGeneration, identity, generation);
  }

  /** Node ids ignore the graph generation. */
  lemma IdIgnoresGeneration(h: Mixer, identity: PrefixIdentity, g: u64, g': u64)
    ensures NodeId(h, identity, g) == NodeId(h, identity, g')
  {
  }

  lemma FamilyAndTokens(a: PrefixIdentity, b: PrefixIdentity)
    requires SameFamily(a, b) && a.tokenSequence == b.tokenSequence
    ensures a == b
  {
    SameButTokens(a, b);
  }

  /** A child that agrees with its parent off the tokens always gets a new id. */
  lemma AgreeingChildIsNew(h: Mixer, g: Graph, parent: Digest, token: u32, identity: PrefixIdentity)
    requires Forest(h, g) && Families(g.nodes) && Distinguished(h, g.nodes, identity)
    requires parent in g.nodes && SameFamily(identity, g.nodes[parent].identity)
    requires ExtendsTokens(g.nodes[parent].depth, g.nodes[parent].identity, token, identity)
             && token !in g.nodes[parent].children
    ensures NodeId(h, identity, g.generation) !in g.nodes
  {
    var id := NodeId(h, identity, g.generation);
    if id in g.nodes {
      StoredIdentity(h, g.nodes, identity, g.generation);
      assert ParentOk(g.nodes, id);
      var q := g.nodes[id].parent.value;
      SameParent(h, g, q, parent, token, identity, g.nodes[id].incomingToken.value);
    }
  }

  lemma SameParent(h: Mixer, g: Graph, q: Digest, parent: Digest, token: u32, identity: PrefixIdentity, t: u32)
    requires Forest(h, g) && q in g.nodes && parent in g.nodes
    requires SameFamily(identity, g.nodes[parent].identity) && SameFamily(identity, g.nodes[q].identity)
    requires ExtendsTokens(g.nodes[parent].depth, g.nodes[parent].identity, token, identity)
             && ExtendsTokens(g.nodes[q].depth, g.nodes[q].identity, t, identity)
    ensures q == parent && t == token
  {
    hide NodeId;
    assert NodeOk(h, q, g.nodes[q]) && NodeOk(h, parent, g.nodes[parent]);
    assert SameFamily(g.nodes[q].identity, g.nodes[parent].identity);
    FamilyAndTokens(g.nodes[q].identity, g.nodes[parent].identity);
    IdIgnoresGeneration(h, g.nodes[q].identity, g.nodes[q].graphGeneration, g.nodes[parent].graphGeneration);
  }

  lemma ExtendKeepsFamilies(h: Mixer, g: Graph, parent: Digest, token: u32, identity: PrefixIdentity)
    requires Linked(g.nodes) && Families(g.nodes) && NodeId(h, identity, g.generation) !in g.nodes
    requires parent in g.nodes && SameFamily(identity, g.nodes[parent].identity)
    ensures Families(Extend(h, g, parent, token, identity).0.nodes)
  {
    hide NodeId, ClosureOf, ClosureRoot, SameFamily, ExtendsTokens, WithChild;
    ParentsAreNodes(g.nodes);
    ChildKeepsFamilies(g.nodes, parent, token, NewNode(h, identity, Some(parent), Some(token), g.generation));
  }

  lemma ChildKeepsFamilies(nodes: Nodes, parent: Digest, token: u32, child: Node)
    requires Families(nodes) && child.id !in nodes && parent in nodes && child.parent == Some(parent)
    requires SameFamily(child.identity, nodes[parent].identity)
    requires forall n :: n in nodes && nodes[n].parent.Some? ==> nodes[n].parent.value in nodes
    ensures Families(WithChild(nodes, parent, token, child))
  {
    hide SameFamily;
  }

  lemma ParentsAreNodes(nodes: Nodes)
    requires Linked(nodes)
    ensures forall n :: n in nodes && nodes[n].parent.Some? ==> nodes[n].parent.value in nodes
  {
    hide ExtendsTokens, ChildrenOk;
    forall n | n in nodes && nodes[n].parent.Some? ensures nodes[n].parent.value in nodes {
      assert ParentOk(nodes, n);
    }
  }

  /** A root that is new among the roots is new among all nodes. */
  lemma NewRootIsNew(h: Mixer, g: Graph, identity: PrefixIdentity)
    requires Forest(h, g) && Distinguished(h, g.nodes, identity) && identity.tokenSequence == []
    requires NodeId(h, identity, g.generation) !in g.roots
    ensures NodeId(h, identity, g.generation) !in g.nodes
  {
    TokenlessNodesAreRoots(g);
    if NodeId(h, identity, g.generation) in g.nodes {
      StoredIdentity(h, g.nodes, identity, g.generation);
    }
  }

  lemma TokenlessNodesAreRoots(g: Graph)
    requires Linked(g.nodes) && RootsOk(g.roots, g.nodes)
    ensures forall n :: n in g.nodes && g.nodes[n].identity.tokenSequence == [] ==> n in g.roots
  {
    forall n | n in g.nodes && g.nodes[n].identity.tokenSequence == [] ensures n in g.roots {
      assert ParentOk(g.nodes, n);
    }
  }

  lemma InsertRootKeepsFamilies(h: Mixer, g: Graph, identity: PrefixIdentity)
    requires Forest(h, g) && Families(g.nodes) && NodeId(h, identity, g.generation) !in g.nodes
    ensures Families(InsertRoot(h, g, identity).0.nodes)
  {
    hide NodeId, ClosureOf, SameFamily, ExtendsTokens, ChildrenOk;
    ParentsAreNodes(g.nodes);
  }

  // ---- lookups ---------------------------------------------------------------------------

  /** The node reached from a root along a token path. */
  function Walk(nodes: Nodes, root: Digest, tokens: seq<u32>): Option<Digest> {
    if tokens == [] then Some(root)
    else
      match Walk(nodes, root, tokens[..|tokens| - 1])
      case None => None
      case Some(c) => ChildOf(nodes, c, tokens[|tokens| - 1])
  }

  function ChildOf(nodes: Nodes, n: Digest, token: u32): Option<Digest> {
    if n in nodes && token in nodes[n].children then Some(nodes[n].children[token]) else None
  }

  function Lookup(g: Graph, root: Digest, tokens: seq<u32>): Result<Option<Digest>, GraphError> {
    if root !in g.roots then Err(UnknownRoot) else Ok(Walk(g.nodes, root, tokens))
  }

  /** A path that breaks off stays broken off. */
  lemma {:induction false} WalkStaysLost(nodes: Nodes, root: Digest, tokens: seq<u32>, i: nat)
    requires i <= |tokens| && Walk(nodes, root, tokens[..i]) == None
    ensures Walk(nodes, root, tokens) == None
    decreases |tokens|
  {
    if i < |tokens| {
      assert tokens[..|tokens| - 1][..i] == tokens[..i];
      WalkStaysLost(nodes, root, tokens[..|tokens| - 1], i);
    } else {
      assert tokens[..i] == tokens;
    }
  }

  /** The root at the top of a node's parent chain. */
  ghost function RootOf(nodes: Nodes, n: Digest): Digest
    requires ParentsAbove(nodes) && n in nodes
    decreases nodes[n].depth
  {
    if nodes[n].parent.None? then n else RootOf(nodes, nodes[n].parent.value)
  }

  lemma {:induction false} WalkArrives(h: Mixer, g: Graph, root: Digest, tokens: seq<u32>)
    requires Forest(h, g) && root in g.roots && Walk(g.nodes, root, tokens).Some?
    ensures ParentsAbove(g.nodes)
    ensures var n := Walk(g.nodes, root, tokens).value;
            n in g.nodes && RootOf(g.nodes, n) == root && g.nodes[n].identity.tokenSequence == tokens
    decreases |tokens|
  {
    hide RootsOk, Named, Linked;
    LinkedHasParentsAbove(h, g.nodes);
    if tokens == [] {
      RootNode(g, root);
    } else {
      var front, t := tokens[..|tokens| - 1], tokens[|tokens| - 1];
      WalkArrives(h, g, root, front);
      StepDown(h, g.nodes, Walk(g.nodes, root, front).value, t);
      assert front + [t] == tokens;
    }
  }

  lemma RootNode(g: Graph, root: Digest)
    requires Linked(g.nodes) && RootsOk(g.roots, g.nodes) && root in g.roots
    ensures root in g.nodes && g.nodes[root].parent.None? && g.nodes[root].identity.tokenSequence == []
  {
    assert ParentOk(g.nodes, root);
  }

  lemma StepDown(h: Mixer, nodes: Nodes, c: Digest, t: u32)
    requires Linked(nodes) && Named(h, nodes) && ParentsAbove(nodes) && c in nodes && t in nodes[c].children
    ensures var n := nodes[c].children[t];
            n in nodes && RootOf(nodes, n) == RootOf(nodes, c)
                && nodes[n].identity.tokenSequence == nodes[c].identity.tokenSequence + [t]
  {
    hide ExtendsTokens;
    var n := nodes[c].children[t];
    assert ChildrenOk(nodes, c) && ParentOk(nodes, n);
    TokensExtended(nodes[c].depth, nodes[c].identity, t, nodes[n].identity);
  }

  lemma TokensExtended(depth: nat, parent: PrefixIdentity, token: u32, identity: PrefixIdentity)
    requires ExtendsTokens(depth, parent, token, identity)
    ensures identity.tokenSequence == parent.tokenSequence + [token]
  {
    assert identity.tokenSequence == identity.tokenSequence[..depth] + [identity.tokenSequence[depth]];
  }

  lemma {:induction false} WalkFindsNode(h: Mixer, g: Graph, n: Digest)
    requires Forest(h, g) && ParentsAbove(g.nodes) && n in g.nodes
    ensures RootOf(g.nodes, n) in g.roots
            && Walk(g.nodes, RootOf(g.nodes, n), g.nodes[n].identity.tokenSequence) == Some(n)
    decreases g.nodes[n].depth
  {
    hide ExtendsTokens, Named;
    assert ParentOk(g.nodes, n);
    var node := g.nodes[n];
    if node.parent.Some? {
      var p, t := node.parent.value, node.incomingToken.value;
      WalkFindsNode(h, g, p);
      TokensExtended(g.nodes[p].depth, g.nodes[p].identity, t, node.identity);
      var tokens := node.identity.tokenSequence;
      assert tokens[..|tokens| - 1] == g.nodes[p].identity.tokenSequence;
    }
  }

  /** Lookup returns a node exactly when that node's path from that root is those tokens. */
  lemma LookupFindsExactly(h: Mixer, g: Graph, root: Digest, tokens: seq<u32>, n: Digest)
    requires Forest(h, g)
    ensures ParentsAbove(g.nodes)
    ensures Lookup(g, root, tokens) == Ok(Some(n))
            <==> n in g.nodes && RootOf(g.nodes, n) == root && g.nodes[n].identity.tokenSequence == tokens
  {
    hide Linked, Named, RootsOk, Walk, RootOf;
    LinkedHasParentsAbove(h, g.nodes);
    if Lookup(g, root, tokens) == Ok(Some(n)) {
      WalkArrives(h, g, root, tokens);
    }
    if n in g.nodes && RootOf(g.nodes, n) == root && g.nodes[n].identity.tokenSequence == tokens {
      WalkFindsNode(h, g, n);
    }
  }

  // ---- what a new child changes ------------------------------------------------------------

  lemma {:induction false} RootOfOldNode(nodes: Nodes, nodes': Nodes, n: Digest)
    requires ParentsAbove(nodes) && ParentsAbove(nodes') && n in nodes
    requires forall x :: x in nodes ==> x in nodes' && nodes'[x].parent == nodes[x].parent
    ensures RootOf(nodes', n) == RootOf(nodes, n)
    decreases nodes[n].depth
  {
    if nodes[n].parent.Some? {
      RootOfOldNode(nodes, nodes', nodes[n].parent.value);
    }
  }

  /** After an extension exactly one more path is found, and it leads to the new node. */
  lemma LookupAfterExtend(
    h: Mixer, g: Graph, parent: Digest, token: u32, identity: PrefixIdentity, root: Digest, tokens: seq<u32>
  )
    requires Forest(h, g) && Extend(h, g, parent, token, identity).1.Ok?
    requires NodeId(h, identity, g.generation) !in g.nodes
    ensures ParentsAbove(g.nodes)
    ensures var g' := Extend(h, g, parent, token, identity).0;
            Lookup(g', root, tokens)
            == if root == RootOf(g.nodes, parent) && tokens == identity.tokenSequence
               then Ok(Some(NodeId(h, identity, g.generation)))
               else Lookup(g, root, tokens)
  {
    hide Linked, Named, RootsOk, Walk, RootOf, NodeId, ClosureOf, ClosureRoot, ExtendsTokens;
    var (g', _) := Extend(h, g, parent, token, identity);
    var id := NodeId(h, identity, g.generation);
    ExtendKeepsForest(h, g, parent, token, identity);
    LinkedHasParentsAbove(h, g.nodes);
    LinkedHasParentsAbove(h, g'.nodes);
    forall n | n in g.nodes ensures RootOf(g'.nodes, n) == RootOf(g.nodes, n) {
      RootOfOldNode(g.nodes, g'.nodes, n);
    }
    RootOfChild(g'.nodes, id, parent);
    RootIsRoot(h, g, parent);
    forall n ensures Lookup(g', root, tokens) == Ok(Some(n)) <==>
                     Lookup(g, root, tokens) == Ok(Some(n))
                         || (n == id && root == RootOf(g.nodes, parent) && tokens == identity.tokenSequence)
    {
      LookupFindsExactly(h, g, root, tokens, n);
      LookupFindsExactly(h, g', root, tokens, n);
    }
    SameAnswer(g, g', root, tokens, id, root == RootOf(g.nodes, parent) && tokens == identity.tokenSequence);
  }

  lemma RootOfChild(nodes: Nodes, n: Digest, parent: Digest)
    requires ParentsAbove(nodes) && n in nodes && nodes[n].parent == Some(parent)
    ensures RootOf(nodes, n) == RootOf(nodes, parent)
  {
  }

  lemma RootIsRoot(h: Mixer, g: Graph, n: Digest)
    requires Forest(h, g) && ParentsAbove(g.nodes) && n in g.nodes
    ensures RootOf(g.nodes, n) in g.roots
  {
    WalkFindsNode(h, g, n);
  }

  lemma SameAnswer(g: Graph, g': Graph, root: Digest, tokens: seq<u32>, id: Digest, grown: bool)
    requires g'.roots == g.roots && (grown ==> root in g.roots)
    requires forall n ::
               Lookup(g', root, tokens) == Ok(Some(n)) <==> Lookup(g, root, tokens) == Ok(Some(n)) || (n == id && grown)
    ensures Lookup(g', root, tokens) == if grown then Ok(Some(id)) else Lookup(g, root, tokens)
  {
    hide Walk;
    assert grown ==> Lookup(g', root, tokens) == Ok(Some(id));
    var a, b := Lookup(g, root, tokens), Lookup(g', root, tokens);
    assert a.Ok? && a.value.Some? ==> b == Ok(Some(a.value.value));
    assert b.Ok? && b.value.Some? && !grown ==> a == Ok(Some(b.value.value));
  }

  /**
   Without agreement the forest can be lost: a child of one family stored under
   a root of another is stored again, over itself, by its own family's root.
   */
  lemma DisagreeingChildIsOverwritten(h: Mixer, a: PrefixIdentity, b: PrefixIdentity, token: u32)
    requires a.tokenSequence == [] && b.tokenSequence == []
    requires var c := b.(tokenSequence := [token]);
             NodeId(h, a, 1) != NodeId(h, b, 1) && NodeId(h, c, 1) != NodeId(h, a, 1)
                 && NodeId(h, c, 1) != NodeId(h, b, 1)
    ensures var c := b.(tokenSequence := [token]);
            var (g1, r1) := InsertRoot(h, EMPTY, a);
            var (g2, r2) := InsertRoot(h, g1, b);
            var (g3, r3) := Extend(h, g2, NodeId(h, a, 1), token, c);
            var (g4, r4) := Extend(h, g3, NodeId(h, b, 1), token, c);
            r1.Ok? && r2.Ok? && r3.Ok? && r4.Ok? && Forest(h, g3) && !Forest(h, g4)
  {
    hide NodeId, ClosureOf, ClosureRoot, Forest;
    EmptyIsForest(h);
    InsertRootKeepsForest(h, EMPTY, a);
    var g1 := InsertRoot(h, EMPTY, a).0;
    InsertRootKeepsForest(h, g1, b);
    var g2 := InsertRoot(h, g1, b).0;
    var c := b.(tokenSequence := [token]);
    assert c.tokenSequence[..0] == [];
    ExtendKeepsForest(h, g2, NodeId(h, a, 1), token, c);
    var g3 := Extend(h, g2, NodeId(h, a, 1), token, c).0;
    ExtendKeepsForest(h, g3, NodeId(h, b, 1), token, c);
  }

  // ---- what the two insertions answer -------------------------------------------------------

  /** A root is refused exactly for tokens or for an id that some root has already. */
  lemma InsertRootAnswers(h: Mixer, g: Graph, identity: PrefixIdentity)
    ensures var (g', r), id := InsertRoot(h, g, identity), NodeId(h, identity, g.generation);
            && (r == Err(EmptyIdentity) <==> identity.tokenSequence != [])
            && (r == Err(RootAlreadyExists) <==> identity.tokenSequence == [] && Lookup(g, id, []) != Err(UnknownRoot))
            && (r.Ok? <==> identity.tokenSequence == [] && Lookup(g, id, []) == Err(UnknownRoot))
            && (r.Ok? ==> r.value == Root(id, identity, ClosureOf(h, identity, g.generation, 0))
                          && id in g'.roots && g'.roots[id] == r.value)
            && (r.Err? ==> g' == g)
  {
    hide NodeId, ClosureOf;
  }

  /**
   A child is refused exactly for an unknown parent, for tokens that are not the
   parent's and then this one, or for a path that is found already; otherwise the
   edge leads from the parent to it.
   */
  lemma ExtendAnswers(h: Mixer, g: Graph, parent: Digest, token: u32, identity: PrefixIdentity)
    requires Forest(h, g)
    ensures ParentsAbove(g.nodes)
    ensures var (g', r) := Extend(h, g, parent, token, identity);
            var known := parent in g.nodes;
            var longer := known && identity.tokenSequence == g.nodes[parent].identity.tokenSequence + [token];
            var found := known && Lookup(g, RootOf(g.nodes, parent), identity.tokenSequence) != Ok(None);
            && (r == Err(UnknownNode) <==> !known)
            && (r == Err(InvalidTokenSequence) <==> known && !longer)
            && (r == Err(DuplicateEdge) <==> longer && found)
            && (r.Ok? <==> longer && !found)
            && (r.Err? ==> g' == g)
  {
    hide Forest, ParentsAbove, ExtendsTokens, Lookup, RootOf, Extend;
    ForestHasParentsAbove(h, g);
    ExtendCases(h, g, parent, token, identity);
    if parent in g.nodes {
      ForestDepth(h, g, parent);
      TokensExtend(g.nodes[parent].identity, token, identity);
      if identity.tokenSequence == g.nodes[parent].identity.tokenSequence + [token] {
        ChildIsLookup(h, g, parent, token);
      }
    }
  }

  lemma ForestDepth(h: Mixer, g: Graph, n: Digest)
    requires Forest(h, g) && n in g.nodes
    ensures g.nodes[n].depth == |g.nodes[n].identity.tokenSequence|
  {
    hide NodeId, ClosureOf, Linked, RootsOk;
    assert NodeOk(h, n, g.nodes[n]);
  }

  /** The edge of a successful extension leads from the parent to the new id, at the token's place. */
  lemma EdgeOfExtension(h: Mixer, g: Graph, parent: Digest, token: u32, identity: PrefixIdentity)
    requires Forest(h, g) && Extend(h, g, parent, token, identity).1.Ok?
    ensures var (child, edge) := Extend(h, g, parent, token, identity).1.value;
            && child == NodeId(h, identity, g.generation)
            && edge.parent == parent && edge.child == child && edge.graphGeneration == g.generation
            && edge.ordinal < |identity.tokenSequence| && identity.tokenSequence[edge.ordinal] == edge.token == token
            && edge.ordinal == |identity.tokenSequence| - 1
            && edge.dependencyRoot == ClosureRoot(h, ClosureOf(h, identity, g.generation, 0))
  {
    hide NodeId, ClosureOf, ClosureRoot, WithChild, Forest;
    ForestDepth(h, g, parent);
  }

  /** The answers in terms of the parent's own fields. */
  lemma ExtendCases(h: Mixer, g: Graph, parent: Digest, token: u32, identity: PrefixIdentity)
    ensures var (g', r) := Extend(h, g, parent, token, identity);
            && (r == Err(UnknownNode) <==> parent !in g.nodes)
            && (r.Err? ==>
                  && g' == g
                  && (r.error == UnknownNode || r.error == InvalidTokenSequence || r.error == DuplicateEdge))
            && (parent in g.nodes ==>
                  var fits := ExtendsTokens(g.nodes[parent].depth, g.nodes[parent].identity, token, identity);
                  && (r == Err(InvalidTokenSequence) <==> !fits)
                  && (r == Err(DuplicateEdge) <==> fits && token in g.nodes[parent].children))
  {
    hide NodeId, ClosureOf, ClosureRoot, ExtendsTokens, WithChild;
  }

  lemma TokensExtend(parent: PrefixIdentity, token: u32, identity: PrefixIdentity)
    ensures ExtendsTokens(|parent.tokenSequence|, parent, token, identity)
            <==> identity.tokenSequence == parent.tokenSequence + [token]
  {
    if ExtendsTokens(|parent.tokenSequence|, parent, token, identity) {
      TokensExtended(|parent.tokenSequence|, parent, token, identity);
    }
  }

  /** A node has a child for a token exactly when the path with that token is found. */
  lemma ChildIsLookup(h: Mixer, g: Graph, n: Digest, token: u32)
    requires Forest(h, g) && ParentsAbove(g.nodes) && n in g.nodes
    ensures var found := Lookup(g, RootOf(g.nodes, n), g.nodes[n].identity.tokenSequence + [token]);
            found == Ok(if token in g.nodes[n].children then Some(g.nodes[n].children[token]) else None)
  {
    hide Forest;
    RootIsRoot(h, g, n);
    WalkFindsNode(h, g, n);
    var tokens := g.nodes[n].identity.tokenSequence;
    assert (tokens + [token])[..|tokens|] == tokens;
  }

  /** Two nodes on the same path from the same root are one. */
  lemma SamePathSameNode(h: Mixer, g: Graph, m: Digest, n: Digest)
    requires Forest(h, g) && ParentsAbove(g.nodes) && m in g.nodes && n in g.nodes
    requires RootOf(g.nodes, m) == RootOf(g.nodes, n)
             && g.nodes[m].identity.tokenSequence == g.nodes[n].identity.tokenSequence
    ensures m == n
  {
    WalkFindsNode(h, g, m);
    WalkFindsNode(h, g, n);
  }

  ghost predicate OnPathTo(nodes: Nodes, n: Digest, m: Digest)
    requires ParentsAbove(nodes) && n in nodes
  {
    && m in nodes && RootOf(nodes, m) == RootOf(nodes, n)
    && nodes[m].identity.tokenSequence <= nodes[n].identity.tokenSequence
  }

  /** A node and those above it are exactly the nodes of its tree whose tokens begin its own. */
  lemma {:induction false} UpwardArePrefixes(h: Mixer, g: Graph, n: Digest, m: Digest)
    requires Forest(h, g) && n in g.nodes
    ensures ParentsAbove(g.nodes)
    ensures m in Upward(g.nodes, Some(n)) <==> OnPathTo(g.nodes, n, m)
    decreases g.nodes[n].depth
  {
    hide Forest, ParentsAbove, OnPathTo, RootOf;
    ForestHasParentsAbove(h, g);
    var parent := g.nodes[n].parent;
    if parent.Some? {
      ParentOfLinked(h, g, n);
      UpwardArePrefixes(h, g, parent.value, m);
      OnPathToParent(h, g, n, m);
    } else {
      RootOnPath(h, g, n, m);
    }
  }

  lemma ForestHasParentsAbove(h: Mixer, g: Graph)
    requires Forest(h, g)
    ensures ParentsAbove(g.nodes)
  {
    hide Named, Linked;
    LinkedHasParentsAbove(h, g.nodes);
  }

  lemma OnPathToParent(h: Mixer, g: Graph, n: Digest, m: Digest)
    requires Forest(h, g) && ParentsAbove(g.nodes) && n in g.nodes && g.nodes[n].parent.Some?
    requires g.nodes[n].parent.value in g.nodes
    ensures OnPathTo(g.nodes, n, m) <==> m == n || OnPathTo(g.nodes, g.nodes[n].parent.value, m)
  {
    hide Forest, RootOf;
    var p := g.nodes[n].parent.value;
    ParentOfLinked(h, g, n);
    RootOfChild(g.nodes, n, p);
    if m in g.nodes {
      var t := g.nodes[n].incomingToken.value;
      PrefixOfExtended(g.nodes[m].identity.tokenSequence, g.nodes[p].identity.tokenSequence, t);
      if RootOf(g.nodes, m) == RootOf(g.nodes, n)
         && g.nodes[m].identity.tokenSequence == g.nodes[n].identity.tokenSequence {
        SamePathSameNode(h, g, m, n);
      }
    }
  }

  lemma PrefixOfExtended(a: seq<u32>, tokens: seq<u32>, t: u32)
    ensures a <= tokens + [t] <==> a <= tokens || a == tokens + [t]
  {
    if a <= tokens + [t] && |a| <= |tokens| {
      assert a == (tokens + [t])[..|a|] == tokens[..|a|];
    }
  }

  lemma ParentOfLinked(h: Mixer, g: Graph, n: Digest)
    requires Forest(h, g) && ParentsAbove(g.nodes) && n in g.nodes && g.nodes[n].parent.Some?
    ensures g.nodes[n].incomingToken.Some? && g.nodes[n].parent.value in g.nodes
    ensures g.nodes[g.nodes[n].parent.value].depth < g.nodes[n].depth
    ensures g.nodes[n].identity.tokenSequence
            == g.nodes[g.nodes[n].parent.value].identity.tokenSequence + [g.nodes[n].incomingToken.value]
  {
    hide NodeOk, ExtendsTokens;
    assert ParentOk(g.nodes, n);
    var p := g.nodes[n].parent.value;
    TokensExtended(g.nodes[p].depth, g.nodes[p].identity, g.nodes[n].incomingToken.value, g.nodes[n].identity);
  }

  lemma RootOnPath(h: Mixer, g: Graph, n: Digest, m: Digest)
    requires Forest(h, g) && ParentsAbove(g.nodes) && n in g.nodes && g.nodes[n].parent.None?
    ensures OnPathTo(g.nodes, n, m) <==> m == n
  {
    hide NodeOk, ExtendsTokens;
    assert ParentOk(g.nodes, n);
    TokenlessNodesAreRoots(g);
    if m in g.nodes && g.nodes[m].identity.tokenSequence == [] {
      RootNode(g, m);
    }
  }
}
