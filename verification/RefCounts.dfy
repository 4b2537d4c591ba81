/** Reference counts along parent chains: retains, releases, and what is outstanding. */
module RefCounts {
  import opened Wrappers
  import opened Digests
  import opened GraphState
  import PrefixWalks

  lemma {:induction false} UpwardAreNodes(nodes: Nodes, from: Option<Digest>)
    requires ParentsAbove(nodes) && (from.Some? ==> from.value in nodes)
    ensures Upward(nodes, from) <= nodes.Keys
    decreases Height(nodes, from)
  {
    if from.Some? {
      UpwardAreNodes(nodes, nodes[from.value].parent);
    }
  }

  /** Nodes keep their parents and depths. */
  ghost predicate SameParents(nodes: Nodes, nodes': Nodes) {
    forall n :: n in nodes ==> n in nodes' && nodes'[n].parent == nodes[n].parent && nodes'[n].depth == nodes[n].depth
  }

  lemma {:induction false} UpwardSame(nodes: Nodes, nodes': Nodes, from: Option<Digest>)
    requires ParentsAbove(nodes) && ParentsAbove(nodes') && SameParents(nodes, nodes')
             && (from.Some? ==> from.value in nodes)
    ensures Upward(nodes', from) == Upward(nodes, from)
    decreases Height(nodes, from)
  {
    if from.Some? {
      UpwardSame(nodes, nodes', nodes[from.value].parent);
    }
  }

  lemma ParentsStayAbove(nodes: Nodes, nodes': Nodes)
    requires ParentsAbove(nodes) && SameParents(nodes, nodes') && nodes'.Keys == nodes.Keys
    ensures ParentsAbove(nodes')
  {
  }

  lemma CountsDoNotMoveParents(nodes: Nodes, these: set<Digest>)
    requires ParentsAbove(nodes)
    ensures ParentsAbove(Raised(nodes, these)) && SameParents(nodes, Raised(nodes, these))
    ensures ParentsAbove(Lowered(nodes, these)) && SameParents(nodes, Lowered(nodes, these))
  {
    hide ParentsAbove;
    ParentsStayAbove(nodes, Raised(nodes, these));
    ParentsStayAbove(nodes, Lowered(nodes, these));
  }

  // ---- one retain, one release -----------------------------------------------------------

  lemma {:induction false} ReachesAll(nodes: Nodes, from: Option<Digest>)
    requires ParentsAbove(nodes) && (from.Some? ==> from.value in nodes)
    ensures ReleaseReach(nodes, from).1
            <==> forall n :: n in Upward(nodes, from) && n in nodes ==> nodes[n].referenceCount > 0
    ensures ReleaseReach(nodes, from).1 ==> ReleaseReach(nodes, from).0 == Upward(nodes, from)
    ensures ReleaseReach(nodes, from).0 <= Upward(nodes, from)
    decreases Height(nodes, from)
  {
    if from.Some? {
      ReachesAll(nodes, nodes[from.value].parent);
    }
  }

  /** A release succeeds exactly when every count from the node up to its root is positive. */
  lemma ReleaseSucceedsIff(g: Graph, n: Digest)
    requires ParentsAbove(g.nodes) && n in g.nodes
    ensures Release(g, n).1 == Ok(())
            <==> forall x :: x in Upward(g.nodes, Some(n)) && x in g.nodes ==> g.nodes[x].referenceCount > 0
    ensures Release(g, n).1.Ok? ==> Release(g, n).0.nodes == Lowered(g.nodes, Upward(g.nodes, Some(n)))
  {
    PrefixWalks.ReleaseIs(g, n);
    ReachesAll(g.nodes, Some(n));
  }

  /** A failed release leaves the graph as it was exactly when the node itself had no count to give. */
  lemma FailedReleaseIsCleanIff(g: Graph, n: Digest)
    requires n in g.nodes && Release(g, n).1.Err?
    ensures Release(g, n).0 == g <==> g.nodes[n].referenceCount == 0
    ensures ParentsAbove(g.nodes) && g.nodes[n].referenceCount > 0 ==>
              n in Release(g, n).0.nodes && Release(g, n).0.nodes[n].referenceCount == g.nodes[n].referenceCount - 1
  {
    if g.nodes[n].referenceCount > 0 {
      var nodes := g.nodes[n := Counted(g.nodes[n], -1)];
      CountsOnlyFall(nodes, g.nodes[n].parent, n);
    }
    if ParentsAbove(g.nodes) {
      PrefixWalks.ReleaseIs(g, n);
      hide Upward;
    }
  }

  /** A release from anywhere raises no count. */
  lemma {:induction false} CountsOnlyFall(nodes: Nodes, from: Option<Digest>, n: Digest)
    requires n in nodes
    ensures n in ReleaseFrom(nodes, from).0
            && ReleaseFrom(nodes, from).0[n].referenceCount <= nodes[n].referenceCount
    decreases TotalCount(nodes)
  {
    if from.Some? && from.value in nodes && nodes[from.value].referenceCount > 0 {
      CountFalls(nodes, from.value);
      CountsOnlyFall(nodes[from.value := Counted(nodes[from.value], -1)], nodes[from.value].parent, n);
    }
  }

  /** Two nodes, one under the other: what the walks from the child do. */
  lemma WalksFromChild(g: Graph, root: Digest, child: Digest)
    requires root != child && root in g.nodes && child in g.nodes && g.nodes.Keys == {root, child}
    requires g.nodes[root].parent == None && g.nodes[child].parent == Some(root)
    requires g.nodes[root].depth == 0 && g.nodes[child].depth == 1
    ensures ParentsAbove(g.nodes) && Upward(g.nodes, Some(child)) == {root, child}
    ensures Upward(g.nodes, Some(root)) == {root}
  {
    assert Upward(g.nodes, Some(root)) == {root} + Upward(g.nodes, None);
    assert Upward(g.nodes, Some(child)) == {child} + Upward(g.nodes, Some(root));
  }

  /** Releasing at once what was retained restores the whole graph. */
  lemma ReleaseUndoesRetain(g: Graph, n: Digest)
    requires ParentsAbove(g.nodes) && n in g.nodes
    ensures Ends(g.nodes, Some(n)) && ParentsAbove(Retain(g, n).0.nodes)
    ensures Retain(g, n).1.Ok? && Release(Retain(g, n).0, n) == (g, Ok(()))
  {
    var up := Upward(g.nodes, Some(n));
    var raised := Raised(g.nodes, up);
    CountsDoNotMoveParents(g.nodes, up);
    UpwardSame(g.nodes, raised, Some(n));
    RaisedThenLowered(g.nodes, up);
    PrefixWalks.RetainIs(g, n);
    PrefixWalks.ReleaseIs(g.(nodes := raised), n);
    hide Upward, Raised, Lowered, ReleaseReach;
    ReachesAll(raised, Some(n));
  }

  lemma RaisedThenLowered(nodes: Nodes, these: set<Digest>)
    ensures Lowered(Raised(nodes, these), these) == nodes
    ensures forall n :: n in these && n in nodes ==> Raised(nodes, these)[n].referenceCount > 0
  {
  }

  // ---- outstanding retains -----------------------------------------------------------------

  /** How many outstanding retains lie in the subtree of n. */
  ghost function Holds(nodes: Nodes, held: seq<Digest>, n: Digest): nat
    requires ParentsAbove(nodes) && forall i :: 0 <= i < |held| ==> held[i] in nodes
  {
    if held == [] then 0
    else
      var last := |held| - 1;
      Holds(nodes, held[..last], n) + (if n in Upward(nodes, Some(held[last])) then 1 else 0)
  }

  ghost predicate AllNodes(nodes: Nodes, held: seq<Digest>) {
    forall i :: 0 <= i < |held| ==> held[i] in nodes
  }

  /** Every node counts exactly the outstanding retains in its subtree. */
  ghost predicate Balanced(nodes: Nodes, held: seq<Digest>) {
    && ParentsAbove(nodes) && AllNodes(nodes, held)
    && forall n :: n in nodes ==> nodes[n].referenceCount == Holds(nodes, held, n)
  }

  lemma {:induction false} HoldsSame(nodes: Nodes, nodes': Nodes, held: seq<Digest>, n: Digest)
    requires ParentsAbove(nodes) && ParentsAbove(nodes') && SameParents(nodes, nodes') && AllNodes(nodes, held)
    ensures AllNodes(nodes', held) && Holds(nodes', held, n) == Holds(nodes, held, n)
  {
    if held != [] {
      HoldsSame(nodes, nodes', held[..|held| - 1], n);
      UpwardSame(nodes, nodes', Some(held[|held| - 1]));
    }
  }

  lemma {:induction false} HoldsWithout(nodes: Nodes, held: seq<Digest>, i: nat, n: Digest)
    requires ParentsAbove(nodes) && AllNodes(nodes, held) && i < |held|
    ensures AllNodes(nodes, Removed(held, i))
    ensures Holds(nodes, held, n)
            == Holds(nodes, Removed(held, i), n) + (if n in Upward(nodes, Some(held[i])) then 1 else 0)
  {
    hide Upward;
    var last := |held| - 1;
    if i < last {
      HoldsWithout(nodes, held[..last], i, n);
      assert Removed(held, i)[..last - 1] == Removed(held[..last], i);
      assert Removed(held, i)[last - 1] == held[last];
    } else {
      assert Removed(held, i) == held[..last];
    }
  }

  lemma NoneHeldMeansZero(nodes: Nodes)
    ensures Balanced(nodes, []) <==> ParentsAbove(nodes) && forall n :: n in nodes ==> nodes[n].referenceCount == 0
  {
  }

  lemma RetainKeepsBalance(g: Graph, held: seq<Digest>, n: Digest)
    requires Balanced(g.nodes, held) && n in g.nodes
    ensures Ends(g.nodes, Some(n)) && Retain(g, n).1.Ok? && Balanced(Retain(g, n).0.nodes, held + [n])
  {
    hide Balanced, Upward, Raised;
    RaisedIsBalanced(g.nodes, held, n);
    PrefixWalks.RetainIs(g, n);
  }

  lemma RaisedIsBalanced(nodes: Nodes, held: seq<Digest>, n: Digest)
    requires Balanced(nodes, held) && n in nodes
    ensures ParentsAbove(nodes) && Balanced(Raised(nodes, Upward(nodes, Some(n))), held + [n])
  {
    var up := Upward(nodes, Some(n));
    var nodes' := Raised(nodes, up);
    CountsDoNotMoveParents(nodes, up);
    RaisedCounts(nodes, up);
    hide Upward, Raised, Holds, ParentsAbove, SameParents;
    forall x | x in nodes' ensures nodes'[x].referenceCount == Holds(nodes', held + [n], x) {
      HoldsOneMore(nodes, nodes', held, n, x);
    }
  }

  lemma HoldsOneMore(nodes: Nodes, nodes': Nodes, held: seq<Digest>, n: Digest, x: Digest)
    requires ParentsAbove(nodes) && ParentsAbove(nodes') && SameParents(nodes, nodes') && AllNodes(nodes, held)
             && n in nodes
    ensures AllNodes(nodes', held + [n])
    ensures Holds(nodes', held + [n], x)
            == Holds(nodes, held, x) + if x in Upward(nodes, Some(n)) then 1 else 0
  {
    HoldsSame(nodes, nodes', held, x);
    UpwardSame(nodes, nodes', Some(n));
    assert (held + [n])[..|held|] == held;
    hide Upward;
  }

  lemma RaisedCounts(nodes: Nodes, these: set<Digest>)
    ensures Raised(nodes, these).Keys == nodes.Keys
    ensures forall x :: x in nodes ==>
              Raised(nodes, these)[x].referenceCount == nodes[x].referenceCount + if x in these then 1 else 0
  {
  }

  /** A matched release never fails, at any height, and what is left stays balanced. */
  lemma MatchedReleaseSucceeds(g: Graph, held: seq<Digest>, i: nat)
    requires Balanced(g.nodes, held) && i < |held|
    ensures Release(g, held[i]).1 == Ok(())
    ensures Balanced(Release(g, held[i]).0.nodes, Removed(held, i))
  {
    var n := held[i];
    var up := Upward(g.nodes, Some(n));
    hide Upward, Holds;
    forall x | x in g.nodes ensures x in up ==> g.nodes[x].referenceCount > 0 {
      HoldsWithout(g.nodes, held, i, x);
    }
    ReleaseSucceedsIff(g, n);
    LoweredIsBalanced(g.nodes, held, i);
  }

  lemma LoweredIsBalanced(nodes: Nodes, held: seq<Digest>, i: nat)
    requires Balanced(nodes, held) && i < |held|
    ensures Balanced(Lowered(nodes, Upward(nodes, Some(held[i]))), Removed(held, i))
  {
    hide Upward, Holds;
    var up := Upward(nodes, Some(held[i]));
    var nodes' := Lowered(nodes, up);
    CountsDoNotMoveParents(nodes, up);
    forall x | x in nodes'
      ensures AllNodes(nodes', Removed(held, i)) && nodes'[x].referenceCount == Holds(nodes', Removed(held, i), x)
    {
      HoldsWithout(nodes, held, i, x);
      HoldsSame(nodes, nodes', Removed(held, i), x);
    }
  }

  lemma {:induction false} NotHeldYet(nodes: Nodes, nodes': Nodes, held: seq<Digest>, n: Digest)
    requires ParentsAbove(nodes) && ParentsAbove(nodes') && SameParents(nodes, nodes') && AllNodes(nodes, held)
             && n !in nodes
    ensures AllNodes(nodes', held) && Holds(nodes', held, n) == 0
  {
    if held != [] {
      var last := |held| - 1;
      NotHeldYet(nodes, nodes', held[..last], n);
      UpwardSame(nodes, nodes', Some(held[last]));
      UpwardAreNodes(nodes, Some(held[last]));
    }
  }

  /** Growing the graph by one uncounted node leaves every count exact. */
  lemma GrowthKeepsBalance(nodes: Nodes, nodes': Nodes, held: seq<Digest>, n: Digest)
    requires Balanced(nodes, held) && ParentsAbove(nodes') && SameParents(nodes, nodes')
    requires nodes'.Keys == nodes.Keys + {n} && n !in nodes && nodes'[n].referenceCount == 0
    requires forall x :: x in nodes ==> nodes'[x].referenceCount == nodes[x].referenceCount
    ensures Balanced(nodes', held)
  {
    hide Upward, Holds;
    forall x | x in nodes' ensures AllNodes(nodes', held) && nodes'[x].referenceCount == Holds(nodes', held, x) {
      if x == n {
        NotHeldYet(nodes, nodes', held, n);
      } else {
        HoldsSame(nodes, nodes', held, x);
      }
    }
  }
}
