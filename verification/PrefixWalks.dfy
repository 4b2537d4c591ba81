/**
 The walks of retain and release: what they make of any nodes, and the sets of
 nodes they count where every parent lies above its child.
 */
module PrefixWalks {
  import opened Wrappers
  import opened Digests
  import opened GraphState

  /** No node lies above itself. */
  lemma NotAboveItself(nodes: Nodes, n: Digest, above: Option<Digest>)
    requires ParentsAbove(nodes) && n in nodes && above == nodes[n].parent
    ensures above.Some? ==> above.value in nodes
    ensures n !in Upward(nodes, above)
  {
    Shallower(nodes, above, nodes[n].depth);
  }

  lemma {:induction false} Shallower(nodes: Nodes, from: Option<Digest>, depth: nat)
    requires ParentsAbove(nodes) && (from.Some? ==> from.value in nodes && nodes[from.value].depth < depth)
    ensures forall x :: x in Upward(nodes, from) ==> x in nodes && nodes[x].depth < depth
    decreases Height(nodes, from)
  {
    if from.Some? {
      Shallower(nodes, nodes[from.value].parent, depth);
    }
  }

  // ---- which walks end -----------------------------------------------------------------

  /** Where parents lie above their children every walk ends, within the depth of its start. */
  lemma {:induction false} AboveEnds(nodes: Nodes, from: Option<Digest>)
    requires ParentsAbove(nodes)
    ensures EndsWithin(nodes, from, Height(nodes, from)) && Ends(nodes, from)
    decreases Height(nodes, from)
  {
    if from.Some? && from.value in nodes {
      var above := nodes[from.value].parent;
      AboveEnds(nodes, above);
      EndsLater(nodes, above, Height(nodes, above), Height(nodes, from) - 1);
    }
    assert EndsWithin(nodes, from, Height(nodes, from));
  }

  lemma {:induction false} EndsLater(nodes: Nodes, from: Option<Digest>, j: nat, k: nat)
    requires EndsWithin(nodes, from, j) && j <= k
    ensures EndsWithin(nodes, from, k)
    decreases j
  {
    if from.Some? && from.value in nodes {
      EndsLater(nodes, nodes[from.value].parent, j - 1, k - 1);
    }
  }

  /** The nodes met on the way. */
  ghost function Met(nodes: Nodes, from: Option<Digest>, k: nat): set<Digest>
    requires EndsWithin(nodes, from, k)
    decreases k
  {
    if from.None? || from.value !in nodes then {} else {from.value} + Met(nodes, nodes[from.value].parent, k - 1)
  }

  lemma {:induction false} MetEnds(nodes: Nodes, from: Option<Digest>, k: nat, x: Digest)
    requires EndsWithin(nodes, from, k) && x in Met(nodes, from, k)
    ensures x in nodes && EndsWithin(nodes, Some(x), k)
    decreases k
  {
    if x != from.value {
      MetEnds(nodes, nodes[from.value].parent, k - 1, x);
      EndsLater(nodes, Some(x), k - 1, k);
    }
  }

  /** With the least bound no node is met twice, so there are as many as links. */
  lemma {:induction false} MeetsEachOnce(nodes: Nodes, from: Option<Digest>, k: nat)
    requires EndsWithin(nodes, from, k) && (k > 0 ==> !EndsWithin(nodes, from, k - 1))
    ensures Met(nodes, from, k) <= nodes.Keys && |Met(nodes, from, k)| == k
    decreases k
  {
    if k > 0 {
      var id, above := from.value, nodes[from.value].parent;
      MeetsEachOnce(nodes, above, k - 1);
      if id in Met(nodes, above, k - 1) {
        MetEnds(nodes, above, k - 1, id);
      }
    }
  }

  /** Whether a walk ends shows within as many links as there are nodes. */
  lemma EndsIff(nodes: Nodes, from: Option<Digest>)
    ensures Ends(nodes, from) <==> EndsWithin(nodes, from, |nodes|)
  {
    if k: nat :| EndsWithin(nodes, from, k) {
      var least := LeastBound(nodes, from, k);
      MeetsEachOnce(nodes, from, least);
      SubsetSize(Met(nodes, from, least), nodes.Keys);
      EndsLater(nodes, from, least, |nodes|);
    }
  }

  lemma {:induction false} LeastBound(nodes: Nodes, from: Option<Digest>, k: nat) returns (least: nat)
    requires EndsWithin(nodes, from, k)
    ensures least <= k && EndsWithin(nodes, from, least) && (least > 0 ==> !EndsWithin(nodes, from, least - 1))
    decreases k
  {
    if k > 0 && EndsWithin(nodes, from, k - 1) {
      least := LeastBound(nodes, from, k - 1);
    } else {
      least := k;
    }
  }

  /** A walk that ends ends above its first node, and the other way round. */
  lemma EndsAbove(nodes: Nodes, id: Digest)
    requires id in nodes
    ensures Ends(nodes, Some(id)) <==> Ends(nodes, nodes[id].parent)
  {
    var above := nodes[id].parent;
    if k: nat :| EndsWithin(nodes, Some(id), k) {
      assert EndsWithin(nodes, above, k - 1);
    }
    if k: nat :| EndsWithin(nodes, above, k) {
      assert EndsWithin(nodes, Some(id), k + 1);
    }
  }

  /** Counts do not matter to where a walk leads. */
  lemma CountKeepsWalk(nodes: Nodes, id: Digest, change: int, from: Option<Digest>)
    requires id in nodes && nodes[id].referenceCount + change >= 0
    ensures Ends(nodes[id := Counted(nodes[id], change)], from) <==> Ends(nodes, from)
  {
    var nodes' := nodes[id := Counted(nodes[id], change)];
    if k: nat :| EndsWithin(nodes, from, k) {
      CountKeepsEnds(nodes, id, change, from, k);
      assert EndsWithin(nodes', from, k);
    }
    if k: nat :| EndsWithin(nodes', from, k) {
      CountKeepsEnds(nodes, id, change, from, k);
      assert EndsWithin(nodes, from, k);
    }
  }

  /** A node that is its own parent: no retain of it returns. */
  lemma LoopNeverEnds(nodes: Nodes, id: Digest)
    requires id in nodes && nodes[id].parent == Some(id)
    ensures !Ends(nodes, Some(id))
  {
    if k: nat :| EndsWithin(nodes, Some(id), k) {
      LoopGoesOn(nodes, id, k);
    }
  }

  lemma {:induction false} LoopGoesOn(nodes: Nodes, id: Digest, k: nat)
    requires id in nodes && nodes[id].parent == Some(id)
    ensures !EndsWithin(nodes, Some(id), k)
    decreases k
  {
    if k > 0 {
      LoopGoesOn(nodes, id, k - 1);
    }
  }

  /** A release always returns; where the walk would go round for ever it ends on a zero count. */
  lemma {:induction false} LoopedReleaseFails(nodes: Nodes, from: Option<Digest>)
    requires !Ends(nodes, from)
    ensures ReleaseFrom(nodes, from).1 == Err(Referenced)
    decreases TotalCount(nodes)
  {
    assert !EndsWithin(nodes, from, 0);
    var id := from.value;
    if nodes[id].referenceCount > 0 {
      EndsAbove(nodes, id);
      CountKeepsWalk(nodes, id, -1, nodes[id].parent);
      CountFalls(nodes, id);
      LoopedReleaseFails(nodes[id := Counted(nodes[id], -1)], nodes[id].parent);
    }
  }

  // ---- the walks as loops --------------------------------------------------------------------

  /** The bound on the links does not matter. */
  lemma {:induction false} AnyBound(nodes: Nodes, from: Option<Digest>, j: nat, k: nat)
    requires EndsWithin(nodes, from, j) && EndsWithin(nodes, from, k)
    ensures RetainFrom(nodes, from, j) == RetainFrom(nodes, from, k)
    decreases j
  {
    if from.Some? && from.value in nodes {
      var above := nodes[from.value].parent;
      CountKeepsEnds(nodes, from.value, 1, above, j - 1);
      CountKeepsEnds(nodes, from.value, 1, above, k - 1);
      AnyBound(nodes[from.value := Counted(nodes[from.value], 1)], above, j - 1, k - 1);
    }
  }

  lemma RetainIsFrom(g: Graph, n: Digest, k: nat)
    requires EndsWithin(g.nodes, Some(n), k)
    ensures var (nodes, r) := RetainFrom(g.nodes, Some(n), k); Retain(g, n) == (g.(nodes := nodes), r)
  {
    var j: nat :| EndsWithin(g.nodes, Some(n), j)
                  && Retain(g, n)
                       == (g.(nodes := RetainFrom(g.nodes, Some(n), j).0), RetainFrom(g.nodes, Some(n), j).1);
    AnyBound(g.nodes, Some(n), j, k);
  }

  // ---- where parents lie above their children -----------------------------------------------

  lemma CountKeepsParents(nodes: Nodes, id: Digest, change: int)
    requires ParentsAbove(nodes) && id in nodes && nodes[id].referenceCount + change >= 0
    ensures ParentsAbove(nodes[id := Counted(nodes[id], change)])
  {
  }

  lemma {:induction false} CountKeepsUpward(nodes: Nodes, id: Digest, change: int, from: Option<Digest>)
    requires ParentsAbove(nodes) && id in nodes && nodes[id].referenceCount + change >= 0
    requires from.Some? ==> from.value in nodes
    ensures ParentsAbove(nodes[id := Counted(nodes[id], change)])
    ensures Upward(nodes[id := Counted(nodes[id], change)], from) == Upward(nodes, from)
    decreases Height(nodes, from)
  {
    CountKeepsParents(nodes, id, change);
    if from.Some? {
      CountKeepsUpward(nodes, id, change, nodes[from.value].parent);
    }
  }

  lemma RaisedOneMore(nodes: Nodes, id: Digest, above: set<Digest>)
    requires id in nodes && id !in above
    ensures Raised(nodes[id := Counted(nodes[id], 1)], above) == Raised(nodes, {id} + above)
  {
  }

  /** A retain adds one to its node and to all above it, and to nothing else. */
  lemma {:induction false} RaisesUpward(nodes: Nodes, from: Option<Digest>, k: nat)
    requires ParentsAbove(nodes) && (from.Some? ==> from.value in nodes) && EndsWithin(nodes, from, k)
    ensures RetainFrom(nodes, from, k) == (Raised(nodes, Upward(nodes, from)), Ok(()))
    decreases k
  {
    if from.None? {
      assert Raised(nodes, {}) == nodes;
    } else {
      var id, above := from.value, nodes[from.value].parent;
      var nodes' := nodes[id := Counted(nodes[id], 1)];
      NotAboveItself(nodes, id, above);
      CountKeepsEnds(nodes, id, 1, above, k - 1);
      CountKeepsUpward(nodes, id, 1, above);
      RaisesUpward(nodes', above, k - 1);
      RaisedOneMore(nodes, id, Upward(nodes, above));
    }
  }

  lemma {:induction false} CountKeepsReach(nodes: Nodes, id: Digest, change: int, from: Option<Digest>)
    requires ParentsAbove(nodes) && id in nodes && nodes[id].referenceCount + change >= 0
    requires (from.Some? ==> from.value in nodes) && id !in Upward(nodes, from)
    ensures ParentsAbove(nodes[id := Counted(nodes[id], change)])
    ensures ReleaseReach(nodes[id := Counted(nodes[id], change)], from) == ReleaseReach(nodes, from)
    decreases Height(nodes, from)
  {
    CountKeepsParents(nodes, id, change);
    if from.Some? {
      CountKeepsReach(nodes, id, change, nodes[from.value].parent);
    }
  }

  lemma {:induction false} ReachIsUpward(nodes: Nodes, from: Option<Digest>)
    requires ParentsAbove(nodes) && (from.Some? ==> from.value in nodes)
    ensures ReleaseReach(nodes, from).0 <= Upward(nodes, from)
    decreases Height(nodes, from)
  {
    if from.Some? {
      ReachIsUpward(nodes, nodes[from.value].parent);
    }
  }

  lemma LoweredOneMore(nodes: Nodes, id: Digest, above: set<Digest>)
    requires id in nodes && id !in above && nodes[id].referenceCount > 0
    ensures Lowered(nodes[id := Counted(nodes[id], -1)], above) == Lowered(nodes, {id} + above)
  {
  }

  /** A release takes one from each node up to the first zero count. */
  lemma {:induction false} LowersReach(nodes: Nodes, from: Option<Digest>)
    requires ParentsAbove(nodes) && (from.Some? ==> from.value in nodes)
    ensures var (reached, done) := ReleaseReach(nodes, from);
            ReleaseFrom(nodes, from) == (Lowered(nodes, reached), if done then Ok(()) else Err(Referenced))
    decreases Height(nodes, from)
  {
    if from.None? || nodes[from.value].referenceCount == 0 {
      assert Lowered(nodes, {}) == nodes;
    } else {
      var id, above := from.value, nodes[from.value].parent;
      NotAboveItself(nodes, id, above);
      ReachIsUpward(nodes, above);
      CountKeepsReach(nodes, id, -1, above);
      LowersReach(nodes[id := Counted(nodes[id], -1)], above);
      LoweredOneMore(nodes, id, ReleaseReach(nodes, above).0);
    }
  }

  lemma RetainIs(g: Graph, n: Digest)
    requires ParentsAbove(g.nodes)
    ensures Ends(g.nodes, Some(n))
    ensures Retain(g, n) == if n !in g.nodes then (g, Err(UnknownNode))
                            else (g.(nodes := Raised(g.nodes, Upward(g.nodes, Some(n)))), Ok(()))
  {
    AboveEnds(g.nodes, Some(n));
    var k := Height(g.nodes, Some(n));
    RetainIsFrom(g, n, k);
    if n in g.nodes {
      RaisesUpward(g.nodes, Some(n), k);
    }
  }

  lemma ReleaseIs(g: Graph, n: Digest)
    requires ParentsAbove(g.nodes)
    ensures Release(g, n) == if n !in g.nodes then (g, Err(UnknownNode))
                             else
                               var (reached, done) := ReleaseReach(g.nodes, Some(n));
                               (g.(nodes := Lowered(g.nodes, reached)), if done then Ok(()) else Err(Referenced))
  {
    if n in g.nodes {
      LowersReach(g.nodes, Some(n));
    }
  }
}
