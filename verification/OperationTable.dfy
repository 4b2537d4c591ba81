/** The operation table of har-ir and its three-colour cycle check. */
module OperationTable {
  import opened Wrappers
  import opened Digraph

  /** The fields `validate` reads; the others play no part in it. */
  datatype PhysicalOperation = PhysicalOperation(index: nat, dependencies: seq<nat>)

  datatype ValidationError =
    | NotDense(index: nat)
    | OutOfRange(index: nat)
    | DependencyCycle(path: seq<nat>)

  datatype Color = White | Grey | Black

  predicate InRange(op: PhysicalOperation, size: nat) {
    forall d :: d in op.dependencies ==> d < size
  }

  ghost predicate DenseAndInRange(ops: seq<PhysicalOperation>, upTo: nat)
    requires upTo <= |ops|
  {
    forall i :: 0 <= i < upTo ==> ops[i].index == i && InRange(ops[i], |ops|)
  }

  ghost function DependencyGraph(ops: seq<PhysicalOperation>): Graph<nat> {
    map i | 0 <= i < |ops| :: ops[i].dependencies
  }

  ghost function Coloured(color: seq<Color>, c: Color): set<nat> {
    set i | 0 <= i < |color| && color[i] == c
  }

  /** Grey nodes are being visited, black ones are done. */
  ghost predicate ColourSearch(ops: seq<PhysicalOperation>, color: seq<Color>, path: seq<nat>, order: seq<nat>) {
    && |color| == |ops|
    && Searching(DependencyGraph(ops), Coloured(color, Grey), Coloured(color, Black), path, order)
  }

  lemma Entering(ops: seq<PhysicalOperation>, color: seq<Color>, path: seq<nat>, order: seq<nat>, node: nat)
    requires ColourSearch(ops, color, path, order) && node < |ops| && color[node] == White
    requires path != [] ==> Edge(DependencyGraph(ops), path[|path| - 1], node)
    ensures ColourSearch(ops, color[node := Grey], path + [node], order)
    ensures Coloured(color[node := Grey], White) == Coloured(color, White) - {node}
    ensures node in Coloured(color, White)
  {
    hide Searching;
    assert Coloured(color[node := Grey], Grey) == Coloured(color, Grey) + {node};
    assert Coloured(color[node := Grey], Black) == Coloured(color, Black);
    SearchEnters(DependencyGraph(ops), Coloured(color, Grey), Coloured(color, Black), path, order, node);
  }

  lemma Leaving(ops: seq<PhysicalOperation>, color: seq<Color>, path: seq<nat>, order: seq<nat>, node: nat)
    requires ColourSearch(ops, color, path + [node], order) && node < |ops| && node !in path
    requires forall j :: 0 <= j < |ops[node].dependencies| ==> ops[node].dependencies[j] in order
    ensures ColourSearch(ops, color[node := Black], path, order + [node])
    ensures Coloured(color[node := Black], White) <= Coloured(color, White)
  {
    var greys := Coloured(color, Grey);
    assert Coloured(color[node := Black], Grey) == greys - {node};
    assert Coloured(color[node := Black], Black) == Coloured(color, Black) + {node};
    assert (path + [node])[|path|] == node;
    assert node in greys && greys - {node} + {node} == greys;
    forall x ensures x in greys - {node} <==> x in path {
      assert x in path + [node] <==> x in path || x == node;
    }
    SearchFinishes(DependencyGraph(ops), greys - {node}, Coloured(color, Black), path, order, node);
  }

  lemma Revisiting(ops: seq<PhysicalOperation>, color: seq<Color>, path: seq<nat>, order: seq<nat>, node: nat)
    requires ColourSearch(ops, color, path, order) && node < |ops|
    requires path != [] ==> Edge(DependencyGraph(ops), path[|path| - 1], node)
    ensures color[node] == Grey ==> RevisitingWalk(DependencyGraph(ops), path + [node])
    ensures color[node] == Black ==> node in order
    ensures color[node] == White ==> node !in path
  {
    if color[node] == Grey {
      SearchRevisits(DependencyGraph(ops), Coloured(color, Grey), Coloured(color, Black), path, order, node);
    } else {
      assert node !in Coloured(color, Grey) && (color[node] == Black ==> node in Coloured(color, Black));
    }
  }

  /**
   The recursive visitor: Ok leaves the node black and the path as it was;
   an error carries a genuine dependency walk whose final node is already on it.
   */
  method Visit(ops: seq<PhysicalOperation>, color: array<Color>, node: nat, path: seq<nat>, ghost order: seq<nat>)
    returns (r: Result<(), ValidationError>, ghost order': seq<nat>)
    requires DenseAndInRange(ops, |ops|)
    requires node < |ops| == color.Length
    requires ColourSearch(ops, color[..], path, order)
    requires path != [] ==> Edge(DependencyGraph(ops), path[|path| - 1], node)
    modifies color
    ensures r.Ok? ==> ColourSearch(ops, color[..], path, order') && node in order' && order <= order'
    ensures r.Ok? ==> Coloured(color[..], White) <= old(Coloured(color[..], White))
    ensures r.Err? ==> r.error.DependencyCycle? && RevisitingWalk(DependencyGraph(ops), r.error.path)
    decreases |Coloured(color[..], White)|
  {
    hide ColourSearch, Coloured;
    order' := order;
    Revisiting(ops, color[..], path, order, node);
    match color[node]
    case Grey =>
      r := Err(DependencyCycle(path + [node]));
    case Black =>
      r := Ok(());
    case White =>
      ghost var whites := Coloured(color[..], White);
      Entering(ops, color[..], path, order, node);
      ghost var was := color[..];
      color[node] := Grey;
      assert color[..] == was[node := Grey];
      var path' := path + [node];
      var i := 0;
      while i < |ops[node].dependencies|
        invariant 0 <= i <= |ops[node].dependencies|
        invariant ColourSearch(ops, color[..], path', order')
        invariant order <= order'
        invariant forall j :: 0 <= j < i ==> ops[node].dependencies[j] in order'
        invariant Coloured(color[..], White) <= whites - {node}
      {
        var dependency := ops[node].dependencies[i];
        WhitesShrink(Coloured(color[..], White), whites, node);
        assert Edge(DependencyGraph(ops), node, dependency);
        ghost var before := order';
        r, order' := Visit(ops, color, dependency, path', order');
        if r.Err? {
          return;
        }
        assert forall j :: 0 <= j < i ==> ops[node].dependencies[j] in before;
        i := i + 1;
      }
      Leaving(ops, color[..], path, order', node);
      was := color[..];
      color[node] := Black;
      assert color[..] == was[node := Black];
      order' := order' + [node];
      r := Ok(());
  }

  lemma WhitesShrink(now: set<nat>, before: set<nat>, node: nat)
    requires node in before && now <= before - {node}
    ensures |now| < |before|
  {
    SubsetSize(now, before - {node});
  }

  /** The table the loader accepts: dense indices, known dependencies, no cycle. */
  ghost predicate Valid(ops: seq<PhysicalOperation>) {
    DenseAndInRange(ops, |ops|) && !Cyclic(DependencyGraph(ops))
  }

  /** What each rejection says about the table. */
  ghost predicate Explains(ops: seq<PhysicalOperation>, e: ValidationError) {
    match e
    case NotDense(index) =>
      exists k :: 0 <= k < |ops| && DenseAndInRange(ops, k) && ops[k].index == index != k
    case OutOfRange(index) =>
      exists k :: 0 <= k < |ops| && DenseAndInRange(ops, k) && ops[k].index == index == k && !InRange(ops[k], |ops|)
    case DependencyCycle(path) =>
      DenseAndInRange(ops, |ops|) && RevisitingWalk(DependencyGraph(ops), path)
  }

  lemma ExplainedIsInvalid(ops: seq<PhysicalOperation>, e: ValidationError)
    requires Explains(ops, e)
    ensures !Valid(ops)
  {
    if e.DependencyCycle? {
      RevisitIsCycle(DependencyGraph(ops), e.path);
    }
  }

  method Validate(ops: seq<PhysicalOperation>) returns (r: Result<(), ValidationError>)
    ensures r.Ok? <==> Valid(ops)
    ensures r.Err? ==> Explains(ops, r.error)
  {
    for index := 0 to |ops|
      invariant DenseAndInRange(ops, index)
    {
      if ops[index].index != index {
        return Err(NotDense(ops[index].index));
      }
      if exists d :: d in ops[index].dependencies && d >= |ops| {
        return Err(OutOfRange(ops[index].index));
      }
    }
    var color := new Color[|ops|](_ => White);
    ghost var order: seq<nat> := [];
    for start := 0 to |ops|
      invariant ColourSearch(ops, color[..], [], order)
      invariant forall i :: 0 <= i < start ==> i in order
    {
      ghost var before := order;
      r, order := Visit(ops, color, start, [], order);
      if r.Err? {
        ExplainedIsInvalid(ops, r.error);
        return;
      }
      assert forall i :: 0 <= i < start ==> i in before;
      assert forall x :: x in before ==> x in order;
    }
    OrderedIsAcyclic(DependencyGraph(ops), order);
    r := Ok(());
  }
}
