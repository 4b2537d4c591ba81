/** Over a whole run: a path is found exactly when it was inserted earlier, and leads to that node. */
module LookupRuns {
  import opened Wrappers
  import opened Arithmetic
  import opened Digests
  import opened Identity
  import opened GraphState
  import opened PrefixForest
  import opened GraphRuns

  /**
   Which path an insertion adds: the empty one of a root not there yet, or its
   parent's with one token more, under the same root, where that was not found.
   */
  ghost predicate Inserts(h: Mixer, g: Graph, op: Op, root: Digest, tokens: seq<u32>)
    requires ParentsAbove(g.nodes)
  {
    match op
    case DoInsertRoot(identity) =>
      && identity.tokenSequence == tokens == []
      && root == NodeId(h, identity, g.generation) && Lookup(g, root, []) == Err(UnknownRoot)
    case DoExtend(parent, token, identity) =>
      && parent in g.nodes && root == RootOf(g.nodes, parent)
      && identity.tokenSequence == tokens == g.nodes[parent].identity.tokenSequence + [token]
      && Lookup(g, root, tokens) == Ok(None)
    case DoRetain(_) => false
    case DoRelease(_) => false
    case DoAttach(_) => false
    case DoAdd(_, _, _) => false
    case DoAcquire(_, _, _, _) => false
    case DoReleaseLease(_) => false
    case DoEvict(_, _, _) => false
    case DoAdvance => false
  }

  lemma {:induction false} WalkInSameTree(nodes: Nodes, nodes': Nodes, root: Digest, tokens: seq<u32>)
    requires SameTree(nodes, nodes')
    ensures Walk(nodes', root, tokens) == Walk(nodes, root, tokens)
  {
    if tokens != [] {
      WalkInSameTree(nodes, nodes', root, tokens[..|tokens| - 1]);
    }
  }

  /** A new root is found by its empty path only, and every other lookup is as before. */
  lemma LookupAfterInsertRoot(h: Mixer, g: Graph, identity: PrefixIdentity, root: Digest, tokens: seq<u32>)
    requires Forest(h, g) && InsertRoot(h, g, identity).1.Ok? && NodeId(h, identity, g.generation) !in g.nodes
    ensures var g', id := InsertRoot(h, g, identity).0, NodeId(h, identity, g.generation);
            Lookup(g', root, tokens)
            == if root == id then Ok(if tokens == [] then Some(id) else None) else Lookup(g, root, tokens)
  {
    hide NodeId, ClosureOf, Linked, Named, RootsOk;
    var g', id := InsertRoot(h, g, identity).0, NodeId(h, identity, g.generation);
    if root == id {
      if tokens != [] {
        ChildlessWalk(g'.nodes, id, tokens);
      }
    } else if root in g.roots {
      OtherRootsWalk(h, g, g', id, root, tokens);
    }
  }

  lemma {:induction false} ChildlessWalk(nodes: Nodes, root: Digest, tokens: seq<u32>)
    requires root in nodes && nodes[root].children == map[] && tokens != []
    ensures Walk(nodes, root, tokens) == None
  {
    if |tokens| > 1 {
      ChildlessWalk(nodes, root, tokens[..|tokens| - 1]);
    }
  }

  lemma {:induction false} OtherRootsWalk(h: Mixer, g: Graph, g': Graph, id: Digest, root: Digest, tokens: seq<u32>)
    requires Forest(h, g) && root in g.roots && id !in g.nodes
    requires forall n :: n in g.nodes ==> n in g'.nodes && g'.nodes[n] == g.nodes[n]
    ensures Walk(g'.nodes, root, tokens) == Walk(g.nodes, root, tokens)
  {
    hide Forest;
    if tokens != [] {
      var front := tokens[..|tokens| - 1];
      OtherRootsWalk(h, g, g', id, root, front);
      if Walk(g.nodes, root, front).Some? {
        WalkArrives(h, g, root, front);
      }
    }
  }

  /** One operation finds exactly the paths found before and the one it inserts. */
  lemma LookupAfterStep(h: Mixer, g: Graph, op: Op, g': Graph, root: Digest, tokens: seq<u32>, x: Digest)
    requires Step(h, g, op, g') && Forest(h, g) && NewIds(h, g, op)
    ensures ParentsAbove(g.nodes)
    ensures Lookup(g', root, tokens) == Ok(Some(x))
            <==> || Lookup(g, root, tokens) == Ok(Some(x))
                 || (op.AddsNode() && Inserts(h, g, op, root, tokens) && x == NodeId(h, op.identity, g.generation))
  {
    hide Forest, NewIds, Lookup, Inserts, NodeId, SameTree;
    LinksOf(h, g);
    if op.DoInsertRoot? {
      FoundAfterInsertRoot(h, g, op.identity, g', root, tokens, x);
    } else if op.DoExtend? {
      FoundAfterExtend(h, g, op.parent, op.token, op.identity, g', root, tokens, x);
    } else {
      OtherOpsInsertNothing(h, g, op, root, tokens);
      hide Apply;
      OtherOpsKeepTree(h, g, op);
      LookupInSameTree(g, g', root, tokens);
    }
  }

  lemma OtherOpsInsertNothing(h: Mixer, g: Graph, op: Op, root: Digest, tokens: seq<u32>)
    requires ParentsAbove(g.nodes) && !op.AddsNode()
    ensures !Inserts(h, g, op, root, tokens)
  {
  }

  lemma LookupInSameTree(g: Graph, g': Graph, root: Digest, tokens: seq<u32>)
    requires SameTree(g.nodes, g'.nodes) && g'.roots == g.roots
    ensures Lookup(g', root, tokens) == Lookup(g, root, tokens)
  {
    WalkInSameTree(g.nodes, g'.nodes, root, tokens);
  }

  lemma FoundAfterInsertRoot(h: Mixer, g: Graph, identity: PrefixIdentity, g': Graph,
        root: Digest, tokens: seq<u32>, x: Digest)
    requires Forest(h, g) && ParentsAbove(g.nodes) && g' == InsertRoot(h, g, identity).0
    requires NewIds(h, g, DoInsertRoot(identity))
    ensures Lookup(g', root, tokens) == Ok(Some(x))
            <==> || Lookup(g, root, tokens) == Ok(Some(x))
                 || (Inserts(h, g, DoInsertRoot(identity), root, tokens) && x == NodeId(h, identity, g.generation))
  {
    InsertRootAnswers(h, g, identity);
    hide Forest, NodeId, Walk;
    if InsertRoot(h, g, identity).1.Ok? {
      LookupAfterInsertRoot(h, g, identity, root, tokens);
      RootsAreNodes(h, g);
    }
  }

  lemma FoundAfterExtend(h: Mixer, g: Graph, parent: Digest, token: u32, identity: PrefixIdentity, g': Graph,
        root: Digest, tokens: seq<u32>, x: Digest)
    requires Forest(h, g) && ParentsAbove(g.nodes) && g' == Extend(h, g, parent, token, identity).0
    requires NewIds(h, g, DoExtend(parent, token, identity))
    ensures Lookup(g', root, tokens) == Ok(Some(x))
            <==> || Lookup(g, root, tokens) == Ok(Some(x))
                 || (&& Inserts(h, g, DoExtend(parent, token, identity), root, tokens)
                     && x == NodeId(h, identity, g.generation))
  {
    ExtendAnswers(h, g, parent, token, identity);
    hide Forest, NodeId, ClosureOf, ClosureRoot, Lookup, Extend, RootOf;
    if Extend(h, g, parent, token, identity).1.Ok? {
      LookupAfterExtend(h, g, parent, token, identity, root, tokens);
    }
  }

  lemma RootsAreNodes(h: Mixer, g: Graph)
    requires Forest(h, g)
    ensures g.roots.Keys <= g.nodes.Keys
  {
    hide Named, Linked;
  }

  /** The i-th operation of the run inserted x on this path. */
  ghost predicate InsertedAt(
    h: Mixer, states: seq<Graph>, ops: seq<Op>, i: nat, root: Digest, tokens: seq<u32>, x: Digest
  ) {
    && i < |ops| && i < |states| && ParentsAbove(states[i].nodes)
    && ops[i].AddsNode() && Inserts(h, states[i], ops[i], root, tokens)
    && x == NodeId(h, ops[i].identity, states[i].generation)
  }

  /** In every run of new ids, a lookup finds a node exactly when an earlier operation inserted it on that path. */
  lemma {:induction false} RunFindsInserted(h: Mixer, states: seq<Graph>, ops: seq<Op>, n: nat,
        root: Digest, tokens: seq<u32>, x: Digest)
    requires Run(h, states, ops) && n < |states|
    requires forall i :: 0 <= i < n ==> NewIds(h, states[i], ops[i])
    ensures Lookup(states[n], root, tokens) == Ok(Some(x))
            <==> exists i: nat :: i < n && InsertedAt(h, states, ops, i, root, tokens, x)
    decreases n
  {
    hide NewIds, Step, Forest, Inserts, Walk, Lookup, NodeId, PagesFit, RootOf;
    if n == 0 {
      NothingFound(root, tokens);
    } else {
      RunFindsInserted(h, states, ops, n - 1, root, tokens, x);
      RunIsForest(h, states, ops, n - 1);
      LookupAfterStep(h, states[n - 1], ops[n - 1], states[n], root, tokens, x);
      hide InsertedAt;
      LastInsertion(h, states, ops, n - 1, root, tokens, x);
    }
  }

  lemma NothingFound(root: Digest, tokens: seq<u32>)
    ensures Lookup(EMPTY, root, tokens) == Err(UnknownRoot)
  {
  }

  lemma LastInsertion(h: Mixer, states: seq<Graph>, ops: seq<Op>, i: nat, root: Digest, tokens: seq<u32>, x: Digest)
    requires i < |ops| && i < |states| && ParentsAbove(states[i].nodes)
    ensures InsertedAt(h, states, ops, i, root, tokens, x)
            <==> && ops[i].AddsNode() && Inserts(h, states[i], ops[i], root, tokens)
                 && x == NodeId(h, ops[i].identity, states[i].generation)
  {
    hide Inserts, NodeId;
  }

  /**
   So in every run of new ids a token can be added to a path exactly when no earlier
   operation inserted the longer path.
   */
  lemma RunExtendsIff(h: Mixer, states: seq<Graph>, ops: seq<Op>, n: nat,
        parent: Digest, token: u32, identity: PrefixIdentity)
    requires Run(h, states, ops) && n < |states| && parent in states[n].nodes
    requires forall i :: 0 <= i < n ==> NewIds(h, states[i], ops[i])
    requires identity.tokenSequence == states[n].nodes[parent].identity.tokenSequence + [token]
    ensures ParentsAbove(states[n].nodes)
    ensures Extend(h, states[n], parent, token, identity).1.Ok?
            <==> !exists i: nat, x :: i < n && InsertedAt(h, states, ops, i, RootOf(states[n].nodes, parent),
                                                         identity.tokenSequence, x)
  {
    hide NewIds, Step, Forest, Inserts, Walk, NodeId, PagesFit, RootOf, Extend, InsertedAt;
    var g, tokens := states[n], identity.tokenSequence;
    RunIsForest(h, states, ops, n);
    ExtendAnswers(h, g, parent, token, identity);
    var root := RootOf(g.nodes, parent);
    RootIsRoot(h, g, parent);
    forall x
      ensures Lookup(g, root, tokens) == Ok(Some(x))
              <==> exists i: nat :: i < n && InsertedAt(h, states, ops, i, root, tokens, x)
    {
      RunFindsInserted(h, states, ops, n, root, tokens, x);
    }
    if Lookup(g, root, tokens) != Ok(None) {
      var x := Walk(g.nodes, root, tokens).value;
      assert Lookup(g, root, tokens) == Ok(Some(x));
      var i: nat :| i < n && InsertedAt(h, states, ops, i, root, tokens, x);
    }
    if i: nat, x :| i < n && InsertedAt(h, states, ops, i, root, tokens, x) {
      RunFindsInserted(h, states, ops, n, root, tokens, x);
    }
  }
}
