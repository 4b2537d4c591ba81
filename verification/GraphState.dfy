/** The prefix graph as a value, and what each of its operations makes of it. */
module GraphState {
  import opened Wrappers
  import opened Arithmetic
  import MapSum
  import LittleEndian
  import opened Digests
  import opened Identity
  import opened PageKey
  import opened PageRecord

  datatype Node = Node(
    id: Digest,
    identity: PrefixIdentity,
    closure: Closure,
    parent: Option<Digest>,
    incomingToken: Option<u32>,
    depth: nat,
    children: map<u32, Digest>,
    pages: seq<PageId>,
    referenceCount: nat,
    activeLeases: nat,
    graphGeneration: u64)

  datatype Root = Root(id: Digest, identity: PrefixIdentity, closure: Closure)

  datatype Edge = Edge(
    parent: Digest, child: Digest, token: u32, ordinal: nat, dependencyRoot: Digest, graphGeneration: u64
  )

  datatype Lease = Lease(leaseId: Digest, page: PageId, kind: Kind, generation: u64, owner: Text)

  datatype GraphError =
    | EmptyIdentity
    | RootAlreadyExists
    | UnknownRoot
    | UnknownNode
    | UnknownPage
    | DuplicateEdge
    | InvalidTokenSequence
    | InvalidPage
    | StaleGeneration(expected: u64, actual: u64)
    | ActiveLease
    | Referenced
    | MissingRepresentation
    | DependencyMismatch
    | InvalidLease

  type Nodes = map<Digest, Node>

  datatype Graph = Graph(
    generation: u64,
    roots: map<Digest, Root>,
    nodes: Nodes,
    pages: map<PageId, Record>,
    leases: map<Digest, Lease>)

  const EMPTY: Graph := Graph(1, map[], map[], map[], map[])

  // ---- the tree ---------------------------------------------------------------------

  function NewNode(
    h: Mixer, identity: PrefixIdentity, parent: Option<Digest>, token: Option<u32>, generation: u64
  ): Node {
    Node(NodeId(h, identity, generation), identity, ClosureOf(h, identity, generation, 0), parent, token,
         |identity.tokenSequence|, map[], [], 0, 0, generation)
  }

  function InsertRoot(h: Mixer, g: Graph, identity: PrefixIdentity): (Graph, Result<Root, GraphError>) {
    var id := NodeId(h, identity, g.generation);
    if identity.tokenSequence != [] then (g, Err(EmptyIdentity))
    else if id in g.roots then (g, Err(RootAlreadyExists))
    else
      var root := Root(id, identity, ClosureOf(h, identity, g.generation, 0));
      (g.(roots := g.roots[id := root], nodes := g.nodes[id := NewNode(h, identity, None, None, g.generation)]),
       Ok(root))
  }

  /** The child's tokens are the parent's and then this token. */
  predicate ExtendsTokens(depth: nat, parent: PrefixIdentity, token: u32, identity: PrefixIdentity) {
    && |identity.tokenSequence| == depth + 1
    && identity.tokenSequence[..depth] == parent.tokenSequence
    && identity.tokenSequence[depth] == token
  }

  /** Storing a child and then the parent's new link to it, over whatever stood under the child's id. */
  function WithChild(nodes: Nodes, parent: Digest, token: u32, child: Node): Nodes
    requires parent in nodes
  {
    var nodes' := nodes[child.id := child];
    nodes'[parent := nodes'[parent].(children := nodes'[parent].children[token := child.id])]
  }

  function Extend(
    h: Mixer, g: Graph, parent: Digest, token: u32, identity: PrefixIdentity
  ): (Graph, Result<(Digest, Edge), GraphError>) {
    if parent !in g.nodes then (g, Err(UnknownNode))
    else if !ExtendsTokens(g.nodes[parent].depth, g.nodes[parent].identity, token, identity) then
      (g, Err(InvalidTokenSequence))
    else if token in g.nodes[parent].children then (g, Err(DuplicateEdge))
    else
      var child := NewNode(h, identity, Some(parent), Some(token), g.generation);
      var edge := Edge(parent, child.id, token, g.nodes[parent].depth, ClosureRoot(h, child.closure), g.generation);
      (g.(nodes := WithChild(g.nodes, parent, token, child)), Ok((child.id, edge)))
  }

  // ---- reference counts ----------------------------------------------------------------

  /** Every parent link leads to a shallower node, so a walk up ends at a root. */
  ghost predicate ParentsAbove(nodes: Nodes) {
    forall n :: n in nodes && nodes[n].parent.Some? ==>
                  nodes[n].parent.value in nodes && nodes[nodes[n].parent.value].depth < nodes[n].depth
  }

  function Height(nodes: Nodes, from: Option<Digest>): nat {
    if from.Some? && from.value in nodes then nodes[from.value].depth + 1 else 0
  }

  /** A node and all above it. */
  ghost function Upward(nodes: Nodes, from: Option<Digest>): set<Digest>
    requires ParentsAbove(nodes) && (from.Some? ==> from.value in nodes)
    decreases Height(nodes, from)
  {
    if from.None? then {} else {from.value} + Upward(nodes, nodes[from.value].parent)
  }

  function Counted(node: Node, change: int): Node
    requires node.referenceCount + change >= 0
  {
    node.(referenceCount := node.referenceCount + change)
  }

  ghost function Raised(nodes: Nodes, these: set<Digest>): Nodes {
    map n | n in nodes :: if n in these then Counted(nodes[n], 1) else nodes[n]
  }

  /** Counts go down where they can. */
  ghost function Lowered(nodes: Nodes, these: set<Digest>): Nodes {
    map n | n in nodes :: if n in these && nodes[n].referenceCount > 0 then Counted(nodes[n], -1) else nodes[n]
  }

  /** The nodes a release reaches before a zero count stops it, and whether none did. */
  ghost function ReleaseReach(nodes: Nodes, from: Option<Digest>): (set<Digest>, bool)
    requires ParentsAbove(nodes) && (from.Some? ==> from.value in nodes)
    decreases Height(nodes, from)
  {
    if from.None? then ({}, true)
    else if nodes[from.value].referenceCount == 0 then ({}, false)
    else
      var (above, done) := ReleaseReach(nodes, nodes[from.value].parent);
      ({from.value} + above, done)
  }

  // ---- the two walks up, on any nodes ------------------------------------------------------

  /** The walk up from here passes a root, or leaves the nodes, within k links. */
  ghost predicate EndsWithin(nodes: Nodes, from: Option<Digest>, k: nat)
    decreases k
  {
    from.None? || from.value !in nodes || (k > 0 && EndsWithin(nodes, nodes[from.value].parent, k - 1))
  }

  ghost predicate Ends(nodes: Nodes, from: Option<Digest>) {
    exists k: nat :: EndsWithin(nodes, from, k)
  }

  lemma {:induction false} CountKeepsEnds(nodes: Nodes, id: Digest, change: int, from: Option<Digest>, k: nat)
    requires id in nodes && nodes[id].referenceCount + change >= 0
    ensures EndsWithin(nodes[id := Counted(nodes[id], change)], from, k) <==> EndsWithin(nodes, from, k)
    decreases k
  {
    if k > 0 && from.Some? && from.value in nodes {
      CountKeepsEnds(nodes, id, change, nodes[from.value].parent, k - 1);
    }
  }

  /** One more for each node met, up to the first missing one. */
  ghost function RetainFrom(nodes: Nodes, from: Option<Digest>, k: nat): (Nodes, Result<(), GraphError>)
    requires EndsWithin(nodes, from, k)
    decreases k
  {
    if from.None? then (nodes, Ok(()))
    else if from.value !in nodes then (nodes, Err(UnknownNode))
    else
      CountKeepsEnds(nodes, from.value, 1, nodes[from.value].parent, k - 1);
      RetainFrom(nodes[from.value := Counted(nodes[from.value], 1)], nodes[from.value].parent, k - 1)
  }

  ghost function CountsOf(nodes: Nodes): map<Digest, nat> {
    map n | n in nodes :: nodes[n].referenceCount
  }

  ghost function TotalCount(nodes: Nodes): nat {
    MapSum.Sum(CountsOf(nodes))
  }

  lemma CountFalls(nodes: Nodes, id: Digest)
    requires id in nodes && nodes[id].referenceCount > 0
    ensures TotalCount(nodes[id := Counted(nodes[id], -1)]) < TotalCount(nodes)
  {
    var nodes' := nodes[id := Counted(nodes[id], -1)];
    MapSum.SumRemove(CountsOf(nodes), id);
    MapSum.SumRemove(CountsOf(nodes'), id);
    OtherCounts(nodes, id, nodes'[id]);
  }

  lemma OtherCounts(nodes: Nodes, id: Digest, node: Node)
    ensures CountsOf(nodes[id := node]) - {id} == CountsOf(nodes) - {id}
  {
  }

  /** One less for each node met, up to the first zero or missing one: every step lowers a count, so it always ends. */
  ghost function ReleaseFrom(nodes: Nodes, from: Option<Digest>): (Nodes, Result<(), GraphError>)
    decreases TotalCount(nodes)
  {
    if from.None? then (nodes, Ok(()))
    else if from.value !in nodes then (nodes, Err(UnknownNode))
    else if nodes[from.value].referenceCount == 0 then (nodes, Err(Referenced))
    else
      CountFalls(nodes, from.value);
      ReleaseFrom(nodes[from.value := Counted(nodes[from.value], -1)], nodes[from.value].parent)
  }

  ghost function Retain(g: Graph, n: Digest): (Graph, Result<(), GraphError>)
    requires Ends(g.nodes, Some(n))
  {
    var k: nat :| EndsWithin(g.nodes, Some(n), k);
    var (nodes, r) := RetainFrom(g.nodes, Some(n), k);
    (g.(nodes := nodes), r)
  }

  ghost function Release(g: Graph, n: Digest): (Graph, Result<(), GraphError>) {
    var (nodes, r) := ReleaseFrom(g.nodes, Some(n));
    (g.(nodes := nodes), r)
  }

  // ---- pages and leases ------------------------------------------------------------------

  predicate Attachable(node: Node, page: Record) {
    page.id.tokenEnd <= |node.identity.tokenSequence| && page.id.logicalGeneration == node.identity.runtimeGeneration
  }

  function Attach(g: Graph, page: Record): (Graph, Result<(), GraphError>) {
    var n := page.id.node;
    if !page.id.Valid() then (g, Err(InvalidPage))
    else if n !in g.nodes then (g, Err(UnknownNode))
    else if !Attachable(g.nodes[n], page) then (g, Err(InvalidPage))
    else if page.closure != g.nodes[n].closure then (g, Err(DependencyMismatch))
    else
      var node := g.nodes[n].(pages := g.nodes[n].pages + [page.id]);
      (g.(nodes := g.nodes[n := node], pages := g.pages[page.id := page]), Ok(()))
  }

  function AddRepresentation(g: Graph, p: PageId, rep: Representation, expected: u64): (Graph, Result<(), GraphError>) {
    if expected != g.generation then (g, Err(StaleGeneration(expected, g.generation)))
    else if p !in g.pages then (g, Err(UnknownPage))
    else
      var page := g.pages[p].(representations := Added(g.pages[p].representations, rep));
      (g.(pages := g.pages[p := page]), Ok(()))
  }

  function LeaseParts(p: PageId, owner: Text, generation: u64): seq<Text> {
    [Key(p), owner, LittleEndian.Le64(generation)]
  }

  function LeaseId(h: Mixer, p: PageId, owner: Text, generation: u64): Digest {
    FromParts(h, LeaseParts(p, owner, generation))
  }

  function WithCounts(page: Record, change: int): Record
    requires page.activeLeases + change >= 0 && page.referenceCount + change >= 0
  {
    page.(activeLeases := page.activeLeases + change, referenceCount := page.referenceCount + change)
  }

  function AcquireLease(
    h: Mixer, g: Graph, p: PageId, kind: Kind, owner: Text, expected: u64
  ): (Graph, Result<Lease, GraphError>) {
    if expected != g.generation then (g, Err(StaleGeneration(expected, g.generation)))
    else if p !in g.pages then (g, Err(UnknownPage))
    else if Find(g.pages[p].representations, kind).None? then (g, Err(MissingRepresentation))
    else
      var lease := Lease(LeaseId(h, p, owner, g.generation), p, kind, g.generation, owner);
      (g.(pages := g.pages[p := WithCounts(g.pages[p], 1)], leases := g.leases[lease.leaseId := lease]), Ok(lease))
  }

  /** The lease is gone even when the page turns out unknown or without counts. */
  function ReleaseLease(g: Graph, leaseId: Digest): (Graph, Result<(), GraphError>) {
    if leaseId !in g.leases then (g, Err(InvalidLease))
    else
      var p := g.leases[leaseId].page;
      var g' := g.(leases := g.leases - {leaseId});
      if p !in g.pages then (g', Err(UnknownPage))
      else if g.pages[p].activeLeases == 0 || g.pages[p].referenceCount == 0 then (g', Err(InvalidLease))
      else (g'.(pages := g.pages[p := WithCounts(g.pages[p], -1)]), Ok(()))
  }

  function Evict(g: Graph, p: PageId, kind: Kind, expected: u64): (Graph, Result<Representation, GraphError>) {
    if expected != g.generation then (g, Err(StaleGeneration(expected, g.generation)))
    else if p !in g.pages then (g, Err(UnknownPage))
    else if g.pages[p].activeLeases != 0 then (g, Err(ActiveLease))
    else if g.pages[p].referenceCount != 0 then (g, Err(Referenced))
    else
      var reps := g.pages[p].representations;
      match Position(reps, kind)
      case None => (g, Err(MissingRepresentation))
      case Some(i) => (g.(pages := g.pages[p := g.pages[p].(representations := Removed(reps, i))]), Ok(reps[i]))
  }

  function Advance(g: Graph): Graph {
    g.(generation := (g.generation + 1) % TWO_64)
  }

  datatype ClosureError = MissingNode | PrefixRangeOutsideNode | RootMismatch | GenerationMismatch

  function ValidateClosure(h: Mixer, g: Graph, p: PageId): Result<(), ClosureError> {
    if p !in g.pages then Err(MissingNode)
    else if p.node !in g.nodes then Err(MissingNode)
    else
      var page, node := g.pages[p], g.nodes[p.node];
      if page.id.tokenEnd > |node.identity.tokenSequence| || page.id.tokenEnd <= page.id.tokenStart then
        Err(PrefixRangeOutsideNode)
      else if ClosureRoot(h, page.closure) != ClosureRoot(h, node.closure) then Err(RootMismatch)
      else if page.id.logicalGeneration != node.identity.runtimeGeneration then Err(GenerationMismatch)
      else Ok(())
  }
}
