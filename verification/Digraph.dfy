/**
 Directed graphs as adjacency maps, shared by the three cycle checkers of the
 repository.  A node that is not a key has no successors.
 */
module Digraph {
  type Graph<T> = map<T, seq<T>>

  predicate Edge<T(==)>(g: Graph<T>, x: T, y: T) {
    x in g && y in g[x]
  }

  ghost predicate Walk<T>(g: Graph<T>, p: seq<T>) {
    |p| > 0 && forall i :: 0 < i < |p| ==> Edge(g, p[i - 1], p[i])
  }

  ghost predicate ClosedWalk<T>(g: Graph<T>, p: seq<T>) {
    |p| >= 2 && Walk(g, p) && p[0] == p[|p| - 1]
  }

  ghost predicate Cyclic<T(!new)>(g: Graph<T>) {
    exists p :: ClosedWalk(g, p)
  }

  /** A walk whose final node already occurs on it: what a cycle error reports. */
  ghost predicate RevisitingWalk<T>(g: Graph<T>, p: seq<T>) {
    Walk(g, p) && p[|p| - 1] in p[..|p| - 1]
  }

  /** Every successor of an entry stands strictly before it (finishing order). */
  ghost predicate Descending<T(!new)>(g: Graph<T>, order: seq<T>) {
    forall i, y :: 0 <= i < |order| && Edge(g, order[i], y) ==> y in order[..i]
  }

  ghost predicate TopologicalOrder<T(!new)>(g: Graph<T>, order: seq<T>) {
    Descending(g, order) && forall x :: x in g ==> x in order
  }

  /** Following a walk out of position i only ever moves to earlier positions. */
  lemma {:induction false} WalkDescends<T(!new)>(g: Graph<T>, order: seq<T>, p: seq<T>, i: nat)
    requires Descending(g, order) && Walk(g, p) && |p| >= 2
    requires i < |order| && order[i] == p[0]
    ensures p[|p| - 1] in order[..i]
    decreases |p|
  {
    assert Edge(g, p[0], p[1]);
    if |p| > 2 {
      var j :| 0 <= j < i && order[j] == p[1];
      var rest := p[1..];
      assert Walk(g, rest) by {
        forall k | 0 < k < |rest| ensures Edge(g, rest[k - 1], rest[k]) {
          assert Edge(g, p[k], p[k + 1]);
        }
      }
      WalkDescends(g, order, rest, j);
      assert rest[|rest| - 1] in order[..j];
    }
  }

  lemma {:induction false} NoCycleThrough<T(!new)>(g: Graph<T>, order: seq<T>, p: seq<T>, i: nat)
    requires TopologicalOrder(g, order) && ClosedWalk(g, p)
    requires i < |order| && order[i] == p[0]
    ensures false
    decreases i
  {
    WalkDescends(g, order, p, i);
    var j :| 0 <= j < i && order[j] == p[|p| - 1];
    NoCycleThrough(g, order, p, j);
  }

  /** A graph with a topological order has no cycle. */
  lemma OrderedIsAcyclic<T(!new)>(g: Graph<T>, order: seq<T>)
    requires TopologicalOrder(g, order)
    ensures !Cyclic(g)
  {
    if Cyclic(g) {
      var p :| ClosedWalk(g, p);
      assert Edge(g, p[0], p[1]);
      var i :| 0 <= i < |order| && order[i] == p[0];
      NoCycleThrough(g, order, p, i);
    }
  }

  /** A reported walk that revisits its final node proves a cycle. */
  lemma RevisitIsCycle<T(!new)>(g: Graph<T>, p: seq<T>)
    requires RevisitingWalk(g, p)
    ensures Cyclic(g)
  {
    var i :| 0 <= i < |p| - 1 && p[i] == p[|p| - 1];
    var c := p[i..];
    assert Walk(g, c) by {
      forall k | 0 < k < |c| ensures Edge(g, c[k - 1], c[k]) {
        assert Edge(g, p[i + k - 1], p[i + k]);
      }
    }
    assert ClosedWalk(g, c);
  }

  lemma WalkExtends<T>(g: Graph<T>, p: seq<T>, y: T)
    requires p != [] ==> Walk(g, p) && Edge(g, p[|p| - 1], y)
    ensures Walk(g, p + [y])
  {
    var q := p + [y];
    forall i | 0 < i < |q| ensures Edge(g, q[i - 1], q[i]) {
      if i < |p| {
        assert Edge(g, p[i - 1], p[i]);
      }
    }
  }
  /**
   The invariant of a depth-first search: the nodes being visited are those of
   `path`, which is a walk; the nodes done are those of `order`, listed so that
   the successors of each stand before it.
   */
  ghost predicate Searching<T(!new)>(g: Graph<T>, visiting: set<T>, done: set<T>, path: seq<T>, order: seq<T>) {
    && (path != [] ==> Walk(g, path))
    && (forall x :: x in visiting <==> x in path)
    && (forall x :: x in done <==> x in order)
    && Descending(g, order)
  }

  /** How far the loop over the successors of one node has come. */
  predicate SearchedUpTo<T(==)>(successors: seq<T>, i: int, order: seq<T>) {
    0 <= i <= |successors| && forall j :: 0 <= j < i ==> successors[j] in order
  }

  lemma SearchedNone<T>(successors: seq<T>, order: seq<T>)
    ensures SearchedUpTo(successors, 0, order)
  {
  }

  lemma SearchedOneMore<T>(successors: seq<T>, i: int, before: seq<T>, order: seq<T>)
    requires SearchedUpTo(successors, i, before) && i < |successors|
    requires before <= order && successors[i] in order
    ensures SearchedUpTo(successors, i + 1, order)
  {
    forall j | 0 <= j < i + 1 ensures successors[j] in order {
      if j < i {
        assert successors[j] in before;
      }
    }
  }

  lemma SearchStarts<T(!new)>(g: Graph<T>)
    ensures Searching(g, {}, {}, [], [])
  {
  }

  lemma SearchEnters<T(!new)>(g: Graph<T>, visiting: set<T>, done: set<T>, path: seq<T>, order: seq<T>, node: T)
    requires Searching(g, visiting, done, path, order)
    requires path != [] ==> Edge(g, path[|path| - 1], node)
    ensures Searching(g, visiting + {node}, done, path + [node], order)
  {
    WalkExtends(g, path, node);
    forall x ensures x in visiting + {node} <==> x in path + [node] {
    }
  }

  /** Meeting a node that is still being visited. */
  lemma SearchRevisits<T(!new)>(g: Graph<T>, visiting: set<T>, done: set<T>, path: seq<T>, order: seq<T>, node: T)
    requires Searching(g, visiting, done, path, order)
    requires path != [] ==> Edge(g, path[|path| - 1], node)
    requires node in visiting
    ensures RevisitingWalk(g, path + [node])
  {
    WalkExtends(g, path, node);
    assert (path + [node])[..|path|] == path;
  }

  lemma SearchFinishes<T(!new)>(g: Graph<T>, visiting: set<T>, done: set<T>, path: seq<T>, order: seq<T>, node: T)
    requires Searching(g, visiting + {node}, done, path + [node], order)
    requires node !in visiting && forall x :: x in visiting <==> x in path
    requires forall y :: Edge(g, node, y) ==> y in order
    ensures Searching(g, visiting, done + {node}, path, order + [node])
  {
    forall x ensures x in done + {node} <==> x in order + [node] {
    }
    DescendingExtends(g, order, node);
    forall i | 0 < i < |path| ensures Edge(g, path[i - 1], path[i]) {
      var p := path + [node];
      assert Edge(g, p[i - 1], p[i]);
    }
  }

  lemma DescendingExtends<T(!new)>(g: Graph<T>, order: seq<T>, node: T)
    requires Descending(g, order)
    requires forall y :: Edge(g, node, y) ==> y in order
    ensures Descending(g, order + [node])
  {
    var grown := order + [node];
    forall i, y | 0 <= i < |grown| && Edge(g, grown[i], y) ensures y in grown[..i] {
      if i < |order| {
        assert order[i] == grown[i] && Edge(g, order[i], y);
        assert grown[..i] == order[..i];
      } else {
        assert grown[..i] == order;
      }
    }
  }
}
