/**
 The two phase-cycle checkers: the strict analyzer's recursive search over the
 full dependency lists, and the legacy compiler's pointer walk over at most one
 parent per phase.
 */
module PhaseGraph {
  import opened Wrappers
  import opened Digraph

  /** A phase as the strict analyzer sees it. */
  datatype PhaseSpec = PhaseSpec(name: string, dependencies: seq<string>)

  /** A phase as the legacy compiler sees it: `depends_on` is a field map entry. */
  datatype PhaseControl = PhaseControl(name: string, parent: Option<string>)

  datatype PhaseDiagnostic =
    | MissingPhase(phase: string, dependency: string)  // S1047
    | PhaseCycle                                       // S1048

  /** Phase name to dependencies; the last declaration of a name wins. */
  function PhaseMap(phases: seq<PhaseSpec>): Graph<string> {
    if phases == [] then map[]
    else
      var last := phases[|phases| - 1];
      PhaseMap(phases[..|phases| - 1])[last.name := last.dependencies]
  }

  lemma {:induction false} PhaseMapKeys(phases: seq<PhaseSpec>)
    ensures forall x :: x in PhaseMap(phases) <==> exists k :: 0 <= k < |phases| && phases[k].name == x
  {
    if phases != [] {
      var front := phases[..|phases| - 1];
      PhaseMapKeys(front);
      forall x | exists k :: 0 <= k < |phases| && phases[k].name == x
        ensures x in PhaseMap(phases)
      {
        var k :| 0 <= k < |phases| && phases[k].name == x;
        assert k < |front| ==> front[k].name == x;
      }
      forall x | x in PhaseMap(phases)
        ensures exists k :: 0 <= k < |phases| && phases[k].name == x
      {
        if x == phases[|phases| - 1].name {
          assert phases[|phases| - 1].name == x;
        } else {
          assert x in PhaseMap(front);
          var k :| 0 <= k < |front| && front[k].name == x;
          assert phases[k].name == x;
        }
      }
    }
  }

  /** The S1047 reports of one phase, in dependency order. */
  function MissingOf(phase: string, dependencies: seq<string>, names: set<string>): seq<PhaseDiagnostic> {
    if dependencies == [] then []
    else
      var last := dependencies[|dependencies| - 1];
      MissingOf(phase, dependencies[..|dependencies| - 1], names)
      + (if last in names then [] else [MissingPhase(phase, last)])
  }

  function AllMissing(phases: seq<PhaseSpec>, names: set<string>): seq<PhaseDiagnostic> {
    if phases == [] then []
    else
      var last := phases[|phases| - 1];
      AllMissing(phases[..|phases| - 1], names) + MissingOf(last.name, last.dependencies, names)
  }

  /** The recursive visitor; of the names it only needs equality. */
  method Visit<T(==, !new)>(
    node: T, g: Graph<T>, visiting: set<T>, done: set<T>, ghost path: seq<T>,
    ghost order: seq<T>
  )
    returns (cycle: bool, visiting': set<T>, done': set<T>, ghost order': seq<T>)
    requires Searching(g, visiting, done, path, order)
    requires path != [] ==> Edge(g, path[|path| - 1], node)
    requires visiting <= g.Keys
    ensures !cycle ==> visiting' == visiting && Searching(g, visiting, done', path, order')
    ensures !cycle ==> node in order' && order <= order'
    ensures cycle ==> Cyclic(g)
    decreases |g.Keys - visiting|
  {
    hide Searching, Cyclic, SearchedUpTo;
    cycle, visiting', done', order' := false, visiting, done, order;
    if node in done {
      DoneIsOrdered(g, visiting, done, path, order, node);
      return;
    }
    if node in visiting {
      SearchRevisits(g, visiting, done, path, order, node);
      RevisitIsCycle(g, path + [node]);
      cycle := true;
      return;
    }
    SearchEnters(g, visiting, done, path, order, node);
    visiting' := visiting + {node};
    FewerLeft(g.Keys, visiting, node);
    if node in g {
      var i := 0;
      var dependencies := g[node];
      SearchedNone(dependencies, order);
      while i < |dependencies|
        invariant 0 <= i <= |dependencies|
        invariant !cycle && visiting' == visiting + {node}
        invariant Searching(g, visiting', done', path + [node], order')
        invariant order <= order' && SearchedUpTo(dependencies, i, order')
      {
        ghost var before := order';
        assert Edge(g, node, dependencies[i]);
        cycle, visiting', done', order' := Visit(dependencies[i], g, visiting', done', path + [node], order');
        if cycle {
          break;
        }
        SearchedOneMore(dependencies, i, before, order');
        i := i + 1;
      }
    }
    if !cycle {
      SearchLeaves(g, visiting, done, path, order, done', order', node);
    }
    visiting' := visiting' - {node};
    done' := done' + {node};
    order' := order' + [node];
  }

  lemma FewerLeft<T>(keys: set<T>, visiting: set<T>, node: T)
    requires node !in visiting
    ensures node in keys ==> |keys - (visiting + {node})| < |keys - visiting|
    ensures visiting + {node} - {node} == visiting
  {
    if node in keys {
      assert keys - visiting == keys - (visiting + {node}) + {node};
    }
  }

  lemma DoneIsOrdered<T(!new)>(
    g: Graph<T>, visiting: set<T>, done: set<T>, path: seq<T>, order: seq<T>, node: T
  )
    requires Searching(g, visiting, done, path, order) && node in done
    ensures node in order
  {
  }

  lemma SearchLeaves<T(!new)>(
    g: Graph<T>, visiting: set<T>, done: set<T>, path: seq<T>, order: seq<T>,
    done': set<T>, order': seq<T>, node: T
  )
    requires Searching(g, visiting, done, path, order) && node !in visiting
    requires Searching(g, visiting + {node}, done', path + [node], order')
    requires node in g ==> SearchedUpTo(g[node], |g[node]|, order')
    ensures Searching(g, visiting, done' + {node}, path, order' + [node])
  {
    SearchFinishes(g, visiting, done', path, order', node);
  }

  /** Exactly the S1047 reports in source order, then S1048 exactly on a cycle. */
  method CheckPhaseGraph(phases: seq<PhaseSpec>) returns (diagnostics: seq<PhaseDiagnostic>)
    ensures diagnostics == AllMissing(phases, PhaseMap(phases).Keys)
                           + if Cyclic(PhaseMap(phases)) then [PhaseCycle] else []
  {
    hide AllMissing, MissingOf, PhaseMap, Searching;
    var names := set p | p in phases :: p.name;
    NamesAreKeys(phases, names);
    diagnostics := [];
    NothingMissing(names);
    for i := 0 to |phases|
      invariant diagnostics == AllMissing(phases[..i], names)
    {
      var dependencies := phases[i].dependencies;
      OnePhaseMore(phases, names, i);
      for j := 0 to |dependencies|
        invariant diagnostics == AllMissing(phases[..i], names) + MissingOf(phases[i].name, dependencies[..j], names)
      {
        OneDependencyMore(phases[i].name, dependencies, names, j);
        if dependencies[j] !in names {
          diagnostics := diagnostics + [MissingPhase(phases[i].name, dependencies[j])];
        }
      }
      assert dependencies[..|dependencies|] == dependencies;
    }
    assert phases[..|phases|] == phases;
    var g: Graph<string> := map[];
    for i := 0 to |phases|
      invariant g == PhaseMap(phases[..i])
    {
      OnePhaseMore(phases, names, i);
      g := g[phases[i].name := phases[i].dependencies];
    }
    var visiting, done: set<string> := {}, {};
    ghost var order: seq<string> := [];
    var cycle := false;
    SearchStarts(g);
    for i := 0 to |phases|
      invariant !cycle && visiting == {} && Searching(g, visiting, done, [], order)
      invariant forall k :: 0 <= k < i ==> phases[k].name in order
    {
      ghost var before := order;
      cycle, visiting, done, order := Visit(phases[i].name, g, visiting, done, [], order);
      if cycle {
        diagnostics := diagnostics + [PhaseCycle];
        return;
      }
      assert forall k :: 0 <= k < i ==> phases[k].name in before;
    }
    AllOrdered(phases, g, done, order);
  }

  lemma NamesAreKeys(phases: seq<PhaseSpec>, names: set<string>)
    requires names == set p | p in phases :: p.name
    ensures names == PhaseMap(phases).Keys
  {
    hide PhaseMap;
    PhaseMapKeys(phases);
  }

  lemma NothingMissing(names: set<string>)
    ensures AllMissing([], names) == [] && (forall phase :: MissingOf(phase, [], names) == []) && PhaseMap([]) == map[]
  {
  }

  /** What the loops over the phases add with the i-th one. */
  lemma OnePhaseMore(phases: seq<PhaseSpec>, names: set<string>, i: nat)
    requires i < |phases|
    ensures var last := phases[i];
            && AllMissing(phases[..i + 1], names)
                 == AllMissing(phases[..i], names) + MissingOf(last.name, last.dependencies, names)
            && PhaseMap(phases[..i + 1]) == PhaseMap(phases[..i])[last.name := last.dependencies]
  {
    hide MissingOf;
    assert phases[..i + 1][..i] == phases[..i];
  }

  lemma OneDependencyMore(phase: string, dependencies: seq<string>, names: set<string>, j: nat)
    requires j < |dependencies|
    ensures MissingOf(phase, dependencies[..j + 1], names)
            == MissingOf(phase, dependencies[..j], names)
                + (if dependencies[j] in names then [] else [MissingPhase(phase, dependencies[j])])
  {
    assert dependencies[..j + 1][..j] == dependencies[..j];
  }

  lemma AllOrdered(phases: seq<PhaseSpec>, g: Graph<string>, done: set<string>, order: seq<string>)
    requires Searching(g, {}, done, [], order) && g == PhaseMap(phases)
             && forall k :: 0 <= k < |phases| ==> phases[k].name in order
    ensures !Cyclic(g)
  {
    hide PhaseMap;
    PhaseMapKeys(phases);
    OrderedIsAcyclic(g, order);
  }

  // ---- what the two maps and the report list hold -----------------------------------------

  /** The last declaration of x. */
  predicate LastOf(phases: seq<PhaseSpec>, x: string, k: int) {
    0 <= k < |phases| && phases[k].name == x && forall j :: k < j < |phases| ==> phases[j].name != x
  }

  /** A name has the dependencies of its last declaration, and only declared names have any. */
  lemma {:induction false} PhaseMapIs(phases: seq<PhaseSpec>, x: string, dependencies: seq<string>)
    ensures x in PhaseMap(phases) && PhaseMap(phases)[x] == dependencies
            <==> exists k :: LastOf(phases, x, k) && phases[k].dependencies == dependencies
  {
    if phases != [] {
      var n := |phases| - 1;
      PhaseMapIs(phases[..n], x, dependencies);
      assert phases[n].name == x ==> LastOf(phases, x, n);
      assert forall k :: phases[n].name != x ==> (LastOf(phases, x, k) <==> LastOf(phases[..n], x, k));
    }
  }

  /** The reports of two lists of phases follow one another. */
  lemma {:induction false} MissingJoins(a: seq<PhaseSpec>, b: seq<PhaseSpec>, names: set<string>)
    ensures AllMissing(a + b, names) == AllMissing(a, names) + AllMissing(b, names)
  {
    hide MissingOf;
    if b == [] {
      assert a + b == a;
    } else {
      var n, last := |b| - 1, b[|b| - 1];
      assert (a + b)[..|a| + n] == a + b[..n] && (a + b)[|a| + n] == last;
      MissingJoins(a, b[..n], names);
      Associates(AllMissing(a, names), AllMissing(b[..n], names), MissingOf(last.name, last.dependencies, names));
    }
  }

  lemma Associates<T>(a: seq<T>, b: seq<T>, c: seq<T>)
    ensures a + b + c == a + (b + c)
  {
  }

  lemma {:induction false} MissingOfJoins(phase: string, a: seq<string>, b: seq<string>, names: set<string>)
    ensures MissingOf(phase, a + b, names) == MissingOf(phase, a, names) + MissingOf(phase, b, names)
  {
    if b == [] {
      assert a + b == a;
    } else {
      var n, last := |b| - 1, b[|b| - 1];
      assert (a + b)[..|a| + n] == a + b[..n] && (a + b)[|a| + n] == last;
      MissingOfJoins(phase, a, b[..n], names);
      Associates(MissingOf(phase, a, names), MissingOf(phase, b[..n], names),
                 if last in names then [] else [MissingPhase(phase, last)]);
    }
  }

  /** So do those of one phase whose dependency list is cut in two. */
  lemma MissingSplits(phase: string, a: seq<string>, b: seq<string>, names: set<string>)
    ensures AllMissing([PhaseSpec(phase, a + b)], names)
            == AllMissing([PhaseSpec(phase, a)], names) + AllMissing([PhaseSpec(phase, b)], names)
  {
    hide MissingOf;
    MissingOfJoins(phase, a, b, names);
    forall ds ensures AllMissing([PhaseSpec(phase, ds)], names) == MissingOf(phase, ds, names) {
      assert [PhaseSpec(phase, ds)][..0] == [];
    }
  }

  /** One dependency is reported exactly when no phase of that name is declared. */
  lemma MissingOfOne(phases: seq<PhaseSpec>, phase: string, dependency: string)
    ensures AllMissing([PhaseSpec(phase, [])], PhaseMap(phases).Keys) == []
    ensures AllMissing([PhaseSpec(phase, [dependency])], PhaseMap(phases).Keys)
            == if exists k :: 0 <= k < |phases| && phases[k].name == dependency then []
               else [MissingPhase(phase, dependency)]
  {
    hide PhaseMap;
    PhaseMapKeys(phases);
    assert [PhaseSpec(phase, [dependency])][..0] == [] && [dependency][..0] == [];
  }

  /** Phase name to parent: only declarations that carry `depends_on` count. */
  function ParentMap(controls: seq<PhaseControl>): map<string, string> {
    if controls == [] then map[]
    else
      var last := controls[|controls| - 1];
      var earlier := ParentMap(controls[..|controls| - 1]);
      if last.parent.Some? then earlier[last.name := last.parent.value] else earlier
  }

  function AsGraph(parents: map<string, string>): Graph<string> {
    map x | x in parents :: [parents[x]]
  }

  predicate DeclaresParent(controls: seq<PhaseControl>, x: string, k: int) {
    0 <= k < |controls| && controls[k].name == x && controls[k].parent.Some?
  }

  lemma {:induction false} ParentMapKeys(controls: seq<PhaseControl>, x: string)
    ensures x in ParentMap(controls) <==> exists k :: DeclaresParent(controls, x, k)
  {
    if controls != [] {
      var front := controls[..|controls| - 1];
      ParentMapKeys(front, x);
      if x in ParentMap(front) {
        var k :| DeclaresParent(front, x, k);
        assert DeclaresParent(controls, x, k);
      }
      if k :| DeclaresParent(controls, x, k) && k < |front| {
        assert DeclaresParent(front, x, k);
      }
      assert DeclaresParent(controls, x, |front|)
             <==> controls[|front|].name == x && controls[|front|].parent.Some?;
    }
  }

  /** The last declaration of x that carries a parent. */
  predicate LastParent(controls: seq<PhaseControl>, x: string, k: int) {
    DeclaresParent(controls, x, k) && forall j :: k < j < |controls| ==> !DeclaresParent(controls, x, j)
  }

  /** A phase has the parent of its last declaration that carries one. */
  lemma {:induction false} ParentMapIs(controls: seq<PhaseControl>, x: string, parent: string)
    ensures x in ParentMap(controls) && ParentMap(controls)[x] == parent
            <==> exists k :: LastParent(controls, x, k) && controls[k].parent == Some(parent)
  {
    if controls != [] {
      var n := |controls| - 1;
      var front := controls[..n];
      ParentMapIs(front, x, parent);
      assert forall k :: 0 <= k < n ==> (DeclaresParent(controls, x, k) <==> DeclaresParent(front, x, k));
      if DeclaresParent(controls, x, n) {
        assert LastParent(controls, x, n);
      } else {
        assert forall k :: LastParent(controls, x, k) <==> LastParent(front, x, k);
      }
    }
  }

  ghost predicate OnCycle(g: Graph<string>, x: string) {
    exists p :: ClosedWalk(g, p) && p[0] == x
  }

  /** A walk that starts on a cycle of a parent map stays on the cycle. */
  lemma {:induction false} CycleNeverEnds(parents: map<string, string>, p: seq<string>, trail: seq<string>)
    requires ClosedWalk(AsGraph(parents), p) && Walk(AsGraph(parents), trail) && trail[0] == p[0]
    ensures trail[|trail| - 1] in parents
  {
    var g := AsGraph(parents);
    var k, i := 0, 0;
    while k < |trail| - 1
      invariant 0 <= k < |trail| && 0 <= i < |p| - 1 && trail[k] == p[i]
    {
      assert Edge(g, p[i], p[i + 1]) && Edge(g, trail[k], trail[k + 1]);
      k, i := k + 1, if i + 1 == |p| - 1 then 0 else i + 1;
    }
    assert Edge(g, p[i], p[i + 1]);
  }

  /** Follow parents from one phase until they end or a phase is met again. */
  method PointerWalk(parents: map<string, string>, start: string) returns (revisits: bool)
    ensures revisits ==> Cyclic(AsGraph(parents))
    ensures !revisits ==> !OnCycle(AsGraph(parents), start)
  {
    ghost var g := AsGraph(parents);
    var cursor := start;
    var seen: set<string> := {};
    ghost var trail: seq<string> := [];
    while cursor in parents
      invariant (trail + [cursor])[0] == start && Walk(g, trail + [cursor])
      invariant seen <= parents.Keys
      invariant forall x :: x in seen <==> x in trail
      decreases |parents.Keys - seen|
    {
      if cursor in seen {
        assert (trail + [cursor])[..|trail|] == trail;
        RevisitIsCycle(g, trail + [cursor]);
        return true;
      }
      assert parents.Keys - (seen + {cursor}) == (parents.Keys - seen) - {cursor};
      seen := seen + {cursor};
      WalkExtends(g, trail + [cursor], parents[cursor]);
      trail := trail + [cursor];
      cursor := parents[cursor];
    }
    forall p | ClosedWalk(g, p) ensures p[0] != start {
      if p[0] == start {
        CycleNeverEnds(parents, p, trail + [cursor]);
      }
    }
    revisits := false;
  }

  /** The pointer walk answers true exactly when the parent map has a cycle. */
  method HasPhaseCycle(controls: seq<PhaseControl>) returns (cycle: bool)
    ensures cycle <==> Cyclic(AsGraph(ParentMap(controls)))
  {
    var parents: map<string, string> := map[];
    for i := 0 to |controls|
      invariant parents == ParentMap(controls[..i])
    {
      assert controls[..i + 1][..i] == controls[..i];
      if controls[i].parent.Some? {
        parents := parents[controls[i].name := controls[i].parent.value];
      }
    }
    assert controls[..|controls|] == controls;
    for i := 0 to |controls|
      invariant forall k :: 0 <= k < i ==> !OnCycle(AsGraph(parents), controls[k].name)
    {
      cycle := PointerWalk(parents, controls[i].name);
      if cycle {
        return;
      }
    }
    if Cyclic(AsGraph(parents)) {
      var p :| ClosedWalk(AsGraph(parents), p);
      assert Edge(AsGraph(parents), p[0], p[1]) && OnCycle(AsGraph(parents), p[0]);
      ParentMapKeys(controls, p[0]);
      assert false;
    }
    cycle := false;
  }

  /** The strict analyzer's form of a control with at most one `depends_on`. */
  function Strict(c: PhaseControl): PhaseSpec {
    PhaseSpec(c.name, if c.parent.Some? then [c.parent.value] else [])
  }

  function StrictPhases(controls: seq<PhaseControl>): (r: seq<PhaseSpec>)
    ensures |r| == |controls| && forall i :: 0 <= i < |r| ==> r[i] == Strict(controls[i])
  {
    seq(|controls|, i requires 0 <= i < |controls| => Strict(controls[i]))
  }

  /**
   A name whose last declaration has no `depends_on` although an earlier one
   has: the strict analyzer drops the earlier parent, the legacy one keeps it.
   */
  ghost predicate Shadowed(controls: seq<PhaseControl>, x: string) {
    exists i, j :: ShadowedAt(controls, x, i, j)
  }

  predicate ShadowedAt(controls: seq<PhaseControl>, x: string, i: int, j: int) {
    && 0 <= i < j < |controls|
    && controls[i].name == controls[j].name == x
    && controls[i].parent.Some? && controls[j].parent.None?
    && forall k :: j < k < |controls| ==> controls[k].name != x
  }

  /** What both maps hold for x, read off the declarations. */
  lemma {:induction false} MapsAgreeUnlessShadowed(controls: seq<PhaseControl>, x: string)
    ensures !Shadowed(controls, x) ==>
              (x in ParentMap(controls)
               <==> x in PhaseMap(StrictPhases(controls)) && PhaseMap(StrictPhases(controls))[x] != [])
    ensures !Shadowed(controls, x) && x in ParentMap(controls) ==>
              PhaseMap(StrictPhases(controls))[x] == [ParentMap(controls)[x]]
    ensures Shadowed(controls, x) ==>
              x in PhaseMap(StrictPhases(controls)) && PhaseMap(StrictPhases(controls))[x] == []
    ensures x in ParentMap(controls) <==> exists i :: DeclaresParent(controls, x, i)
  {
    ParentMapKeys(controls, x);
    if controls != [] {
      var n := |controls| - 1;
      assert StrictPhases(controls)[..n] == StrictPhases(controls[..n]);
      if controls[n].name != x {
        MapsAgreeUnlessShadowed(controls[..n], x);
        ShadowedInFront(controls, x);
      } else {
        LastShadows(controls, x);
      }
    }
  }

  lemma LastShadows(controls: seq<PhaseControl>, x: string)
    requires controls != [] && controls[|controls| - 1].name == x
    ensures Shadowed(controls, x)
            <==> controls[|controls| - 1].parent.None? && exists i :: DeclaresParent(controls, x, i)
  {
    var n := |controls| - 1;
    if i :| DeclaresParent(controls, x, i) && controls[n].parent.None? {
      assert ShadowedAt(controls, x, i, n);
    }
    if Shadowed(controls, x) {
      var i, j :| ShadowedAt(controls, x, i, j);
      assert DeclaresParent(controls, x, i);
    }
  }

  lemma ShadowedInFront(controls: seq<PhaseControl>, x: string)
    requires controls != [] && controls[|controls| - 1].name != x
    ensures Shadowed(controls, x) <==> Shadowed(controls[..|controls| - 1], x)
  {
    var front := controls[..|controls| - 1];
    if Shadowed(front, x) {
      var i, j :| ShadowedAt(front, x, i, j);
      assert ShadowedAt(controls, x, i, j);
    }
    if Shadowed(controls, x) {
      var i, j :| ShadowedAt(controls, x, i, j);
      assert j < |front|;
      assert ShadowedAt(front, x, i, j);
    }
  }

  lemma StrictEdges(controls: seq<PhaseControl>, x: string, y: string)
    ensures Edge(PhaseMap(StrictPhases(controls)), x, y)
            <==> Edge(AsGraph(ParentMap(controls)), x, y) && !Shadowed(controls, x)
  {
    MapsAgreeUnlessShadowed(controls, x);
  }

  /** A cycle of the parent map none of whose phases is shadowed. */
  ghost predicate UnshadowedCycle(controls: seq<PhaseControl>, p: seq<string>) {
    ClosedWalk(AsGraph(ParentMap(controls)), p) && forall x :: x in p ==> !Shadowed(controls, x)
  }

  /** The strict graph is cyclic exactly when some parent-map cycle avoids shadowed names. */
  lemma StrictCycles(controls: seq<PhaseControl>)
    ensures Cyclic(PhaseMap(StrictPhases(controls))) <==> exists p :: UnshadowedCycle(controls, p)
  {
    var g, h := PhaseMap(StrictPhases(controls)), AsGraph(ParentMap(controls));
    forall p
      ensures ClosedWalk(g, p) <==> UnshadowedCycle(controls, p)
    {
      forall i | 0 < i < |p|
        ensures Edge(g, p[i - 1], p[i]) <==> Edge(h, p[i - 1], p[i]) && !Shadowed(controls, p[i - 1])
      {
        StrictEdges(controls, p[i - 1], p[i]);
      }
      if ClosedWalk(g, p) {
        forall x | x in p ensures !Shadowed(controls, x) {
          var i :| 0 <= i < |p| && p[i] == x;
          var k := if i == |p| - 1 then 0 else i;
          assert Edge(g, p[k + 1 - 1], p[k + 1]);
        }
        assert ClosedWalk(h, p);
      }
      if UnshadowedCycle(controls, p) {
        assert ClosedWalk(g, p);
      }
    }
    if Cyclic(g) {
      var p :| ClosedWalk(g, p);
      assert UnshadowedCycle(controls, p);
    }
    if exists p :: UnshadowedCycle(controls, p) {
      var p :| UnshadowedCycle(controls, p);
      assert ClosedWalk(g, p);
    }
  }

  /**
   The two checkers agree on a program with at most one `depends_on` per phase
   exactly when a cyclic parent map has a cycle that avoids shadowed names.
   */
  lemma CheckersAgreeIff(controls: seq<PhaseControl>)
    ensures (Cyclic(PhaseMap(StrictPhases(controls))) <==> Cyclic(AsGraph(ParentMap(controls))))
            <==> (Cyclic(AsGraph(ParentMap(controls))) ==> exists p :: UnshadowedCycle(controls, p))
  {
    StrictCycles(controls);
  }

  /** In particular they agree whenever no name is shadowed, e.g. when names are distinct. */
  lemma CheckersAgreeUnlessShadowed(controls: seq<PhaseControl>)
    requires forall x :: !Shadowed(controls, x)
    ensures Cyclic(PhaseMap(StrictPhases(controls))) <==> Cyclic(AsGraph(ParentMap(controls)))
  {
    StrictCycles(controls);
    if Cyclic(AsGraph(ParentMap(controls))) {
      var p :| ClosedWalk(AsGraph(ParentMap(controls)), p);
      assert UnshadowedCycle(controls, p);
    }
  }

  /** A phase declared twice, first depending on itself, is cyclic only for the legacy checker. */
  lemma CheckersDisagree(a: string)
    ensures var controls := [PhaseControl(a, Some(a)), PhaseControl(a, None)];
            Cyclic(AsGraph(ParentMap(controls))) && !Cyclic(PhaseMap(StrictPhases(controls)))
  {
    var controls := [PhaseControl(a, Some(a)), PhaseControl(a, None)];
    var g := AsGraph(ParentMap(controls));
    assert controls[..1] == [PhaseControl(a, Some(a))] && controls[..1][..0] == [];
    assert ParentMap(controls[..1]) == map[a := a];
    assert Edge(g, a, a);
    assert ClosedWalk(g, [a, a]);
    var phases := StrictPhases(controls);
    assert phases[..1] == [PhaseSpec(a, [a])] && phases[..1][..0] == [];
    assert PhaseMap(phases[..1]) == map[a := [a]];
    OrderedIsAcyclic(PhaseMap(phases), [a]);
  }
}
