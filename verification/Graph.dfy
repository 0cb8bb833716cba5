/**
 * Building the dependency graph of a request and arranging its nodes for execution
 * (pkg/expr/graph.go).
 */
module Graph {
  import opened Basics
  import opened MathExp
  import opened Nodes
  import opened TopoSort

  datatype BuildError =
    | MissingDataSource(refID: string)
    | Undecodable(cause: Error)
    | UnsupportedNodeType(refID: string)
    | BadQuery(refID: string, cause: Error)
    | MissingDependency(name: string)
    | SelfReference(name: string)
    | OnlyQueriesIntoClassic(name: string)
    | ClassicIsNoInput(name: string, user: string)
    | CyclicComponents

  const DATASOURCE_UID := "__expr__"
  const OLD_DATASOURCE_UID := "-100"
  const ML_DATASOURCE_UID := "__ml__"

  function NodeTypeFromDatasourceUID(uid: string): NodeType {
    if uid == DATASOURCE_UID || uid == OLD_DATASOURCE_UID then TypeCMDNode
    else if uid == ML_DATASOURCE_UID then TypeMLNode
    else TypeDatasourceNode
  }

  /**
   * One query of a request. undecodable is the fault of JSON that does not decode to a map of
   * properties; content is what reading these properties for the node type of the query yields.
   */
  datatype Query = Query(
    refID: string, datasourceUID: string, undecodable: Option<Error>, content: Result<Body, Error>, hide: Result<bool, Error>)
  {
    predicate Decoded() {
      content.Ok? ==>
        match NodeTypeFromDatasourceUID(datasourceUID)
        case TypeCMDNode => content.value.Expression? && content.value.command.Valid()
        case TypeMLNode => content.value.MachineLearning?
        case TypeDatasourceNode => content.value.DataSourceQuery?
    }
  }

  /** Why a query gets no node. */
  function QueryFault(q: Query, mlExpressions: bool): Option<BuildError> {
    if q.datasourceUID == "" then Some(MissingDataSource(q.refID))
    else if q.undecodable.Some? then Some(Undecodable(q.undecodable.value))
    else if NodeTypeFromDatasourceUID(q.datasourceUID) == TypeMLNode && !mlExpressions then Some(UnsupportedNodeType(q.refID))
    else if q.content.Err? then Some(BadQuery(q.refID, q.content.error))
    else None
  }

  predicate AllRead(queries: seq<Query>) {
    forall i :: 0 <= i < |queries| ==> queries[i].content.Ok?
  }

  predicate AllDecoded(queries: seq<Query>) {
    forall i :: 0 <= i < |queries| ==> queries[i].Decoded()
  }

  predicate NoQueryFault(queries: seq<Query>, mlExpressions: bool): (none: bool)
    ensures none ==> AllRead(queries)
  {
    forall i :: 0 <= i < |queries| ==> QueryFault(queries[i], mlExpressions) == None
  }

  /** The node of each query; its id is the index of the query. */
  function NodesOf(queries: seq<Query>): (ns: seq<Node>)
    requires AllRead(queries)
    ensures |ns| == |queries|
  {
    seq(|queries|, i requires 0 <= i < |queries| => Node(i, queries[i].refID, queries[i].content.value))
  }

  class DirectedGraph {
    var nodes: map<nat, Node>
    var edges: Edges

    constructor ()
      ensures nodes == map[] && edges == {}
    {
      nodes := map[];
      edges := {};
    }

    /** Two nodes with one id make the library panic. */
    method AddNode(node: Node)
      requires node.id !in nodes
      modifies this
      ensures nodes == old(nodes)[node.id := node] && edges == old(edges)
    {
      nodes := nodes[node.id := node];
    }

    /** An edge from a node to itself makes the library panic. */
    method SetEdge(from: nat, to: nat)
      requires from in nodes && to in nodes && from != to
      modifies this
      ensures nodes == old(nodes) && edges == old(edges) + {(from, to)}
    {
      edges := edges + {(from, to)};
    }
  }

  function IndexNodes(ns: seq<Node>): map<nat, Node> {
    map i: nat | i < |ns| :: ns[i]
  }

  /** Adds a node for every query, or reports the first query that gets none. */
  method BuildGraph(queries: seq<Query>, mlExpressions: bool) returns (dp: DirectedGraph, err: Option<BuildError>)
    ensures fresh(dp) && dp.edges == {}
    ensures err.None? <==> NoQueryFault(queries, mlExpressions)
    ensures err.None? ==> dp.nodes == IndexNodes(NodesOf(queries))
    ensures err.Some? ==>
      exists i :: 0 <= i < |queries| && err == QueryFault(queries[i], mlExpressions) && NoQueryFault(queries[..i], mlExpressions)
  {
    dp := new DirectedGraph();
    for i := 0 to |queries|
      invariant fresh(dp) && dp.edges == {}
      invariant NoQueryFault(queries[..i], mlExpressions)
      invariant dp.nodes == IndexNodes(NodesOf(queries[..i]))
    {
      var query := queries[i];
      if query.datasourceUID == "" {
        return dp, Some(MissingDataSource(query.refID));
      }
      if query.undecodable.Some? {
        return dp, Some(Undecodable(query.undecodable.value));
      }
      if NodeTypeFromDatasourceUID(query.datasourceUID) == TypeMLNode && !mlExpressions {
        return dp, Some(UnsupportedNodeType(query.refID));
      }
      if query.content.Err? {
        return dp, Some(BadQuery(query.refID, query.content.error));
      }
      dp.AddNode(Node(i, query.refID, query.content.value));
      assert queries[..i + 1] == queries[..i] + [query];
    }
    assert queries[..|queries|] == queries;
    err := None;
  }

  function RefIDs(nodes: set<Node>): set<string> {
    set n | n in nodes :: n.refID
  }

  /** The nodes are visited in an arbitrary order; a later one silently replaces an earlier namesake. */
  method BuildNodeRegistry(g: DirectedGraph) returns (registry: map<string, Node>)
    ensures registry.Keys == RefIDs(g.nodes.Values)
    ensures forall r :: r in registry ==> registry[r] in g.nodes.Values && registry[r].refID == r
  {
    registry := map[];
    var rest := g.nodes.Keys;
    ghost var visited: set<Node> := {};
    while rest != {}
      invariant rest <= g.nodes.Keys
      invariant visited <= g.nodes.Values && registry.Keys == RefIDs(visited)
      invariant forall id :: id in g.nodes && id !in rest ==> g.nodes[id] in visited
      invariant forall r :: r in registry ==> registry[r] in g.nodes.Values && registry[r].refID == r
      decreases rest
    {
      var id :| id in rest;
      registry := registry[g.nodes[id].refID := g.nodes[id]];
      rest := rest - {id};
      visited := visited + {g.nodes[id]};
    }
    assert visited == g.nodes.Values;
  }

  /** What is wrong with the reference `name` of an expression node, checked in the order of the source. */
  function EdgeFault(registry: map<string, Node>, node: Node, name: string): Option<BuildError>
    requires node.body.Expression?
  {
    if name !in registry then Some(MissingDependency(name))
    else
      var needed := registry[name];
      if needed.id == node.id then Some(SelfReference(name))
      else if node.body.command.Type() == TypeClassicConditions && !needed.body.DataSourceQuery? then Some(OnlyQueriesIntoClassic(name))
      else if needed.body.Expression? && needed.body.command.Type() == TypeClassicConditions then
        Some(ClassicIsNoInput(name, node.refID))
      else None
  }

  predicate NoEdgeFault(registry: map<string, Node>, node: Node) {
    node.body.Expression? ==> forall v :: v in node.NeedsVars() ==> EdgeFault(registry, node, v) == None
  }

  /** One edge from every needed node to its user. */
  function RefEdges(nodes: set<Node>, registry: map<string, Node>): Edges {
    set node, v | node in nodes && node.body.Expression? && v in node.NeedsVars() && v in registry :: (registry[v].id, node.id)
  }

  function EdgesInto(node: Node, names: seq<string>, registry: map<string, Node>): Edges {
    set v | v in names && v in registry :: (registry[v].id, node.id)
  }

  ghost predicate WellIndexed(nodes: map<nat, Node>, registry: map<string, Node>) {
    && (forall r :: r in registry ==> registry[r].id in nodes)
    && (forall id :: id in nodes ==> nodes[id].id == id)
  }

  /** The inner loop of the edge builder: one edge per reference, until one is faulty. */
  method AddEdgesInto(dp: DirectedGraph, node: Node, registry: map<string, Node>) returns (err: Option<BuildError>)
    requires node.body.Expression? && node.id in dp.nodes && WellIndexed(dp.nodes, registry)
    modifies dp
    ensures dp.nodes == old(dp.nodes)
    ensures err.None? <==> NoEdgeFault(registry, node)
    ensures err.None? ==> dp.edges == old(dp.edges) + EdgesInto(node, node.NeedsVars(), registry)
    ensures err.Some? ==> exists v :: v in node.NeedsVars() && err == EdgeFault(registry, node, v)
  {
    var names := node.NeedsVars();
    for k := 0 to |names|
      invariant dp.nodes == old(dp.nodes)
      invariant forall v :: v in names[..k] ==> EdgeFault(registry, node, v) == None
      invariant dp.edges == old(dp.edges) + EdgesInto(node, names[..k], registry)
    {
      var name := names[k];
      if name !in registry {
        assert EdgeFault(registry, node, name) == Some(MissingDependency(name));
        return Some(MissingDependency(name));
      }
      var needed := registry[name];
      if needed.id == node.id {
        assert EdgeFault(registry, node, name) == Some(SelfReference(name));
        return Some(SelfReference(name));
      }
      if node.body.command.Type() == TypeClassicConditions {
        if !needed.body.DataSourceQuery? {
          assert EdgeFault(registry, node, name) == Some(OnlyQueriesIntoClassic(name));
          return Some(OnlyQueriesIntoClassic(name));
        }
      }
      if needed.body.Expression? {
        if needed.body.command.Type() == TypeClassicConditions {
          assert EdgeFault(registry, node, name) == Some(ClassicIsNoInput(name, node.refID));
          return Some(ClassicIsNoInput(name, node.refID));
        }
      }
      dp.SetEdge(needed.id, node.id);
      assert names[..k + 1] == names[..k] + [name];
      assert EdgesInto(node, names[..k + 1], registry) == EdgesInto(node, names[..k], registry) + {(needed.id, node.id)};
    }
    assert names[..|names|] == names;
    err := None;
  }

  /** The nodes are visited in an arbitrary order; the first faulty reference met is reported. */
  method BuildGraphEdges(dp: DirectedGraph, registry: map<string, Node>) returns (err: Option<BuildError>)
    requires WellIndexed(dp.nodes, registry) && dp.edges == {}
    modifies dp
    ensures dp.nodes == old(dp.nodes)
    ensures err.None? <==> forall id :: id in dp.nodes ==> NoEdgeFault(registry, dp.nodes[id])
    ensures err.None? ==> dp.edges == RefEdges(dp.nodes.Values, registry)
    ensures err.Some? ==>
      exists id, v ::
        id in dp.nodes && dp.nodes[id].body.Expression? && v in dp.nodes[id].NeedsVars() && err == EdgeFault(registry, dp.nodes[id], v)
  {
    var rest := dp.nodes.Keys;
    ghost var visited: set<Node> := {};
    while rest != {}
      invariant rest <= dp.nodes.Keys && dp.nodes == old(dp.nodes)
      invariant forall id :: id in dp.nodes && id !in rest ==> NoEdgeFault(registry, dp.nodes[id]) && dp.nodes[id] in visited
      invariant visited <= dp.nodes.Values
      invariant dp.edges == RefEdges(visited, registry)
      decreases rest
    {
      var id :| id in rest;
      var node := dp.nodes[id];
      rest := rest - {id};
      RefEdgesGrow(visited, node, registry);
      if node.body.Expression? {
        err := AddEdgesInto(dp, node, registry);
        if err.Some? {
          return;
        }
      }
      visited := visited + {node};
    }
    assert visited == dp.nodes.Values;
    err := None;
  }

  lemma RefEdgesGrow(visited: set<Node>, node: Node, registry: map<string, Node>)
    ensures RefEdges(visited + {node}, registry) ==
            RefEdges(visited, registry) + (if node.body.Expression? then EdgesInto(node, node.NeedsVars(), registry) else {})
  {
  }

  // ---------------------------------------------------------------- the whole build

  ghost predicate UniqueRefIDs(queries: seq<Query>) {
    forall i, j :: 0 <= i < j < |queries| ==> queries[i].refID != queries[j].refID
  }

  ghost function NodeSet(ns: seq<Node>): set<Node> {
    set n | n in ns
  }

  /** The reference graph of a request: an edge from each referenced node to its user. */
  ghost function References(ns: seq<Node>): Edges {
    RefEdges(NodeSet(ns), ByRef(ns))
  }

  ghost predicate NoFaultyReference(ns: seq<Node>) {
    forall n :: n in ns ==> NoEdgeFault(ByRef(ns), n)
  }

  /** Every query gets a node, every reference is allowed, and no reference cycle of any length exists. */
  ghost predicate Acceptable(queries: seq<Query>, mlExpressions: bool) {
    && NoQueryFault(queries, mlExpressions)
    && var ns := NodesOf(queries);
       && NoFaultyReference(ns)
       && !HasCycle(References(ns))
  }

  function Arrange(nodes: map<nat, Node>, order: seq<nat>): (p: seq<Node>)
    requires forall v :: v in order ==> v in nodes
    ensures |p| == |order|
  {
    seq(|order|, i requires 0 <= i < |order| => nodes[order[i]])
  }

  /** The nodes in the order the stabilised sort gives, or an error when there is no order. */
  method BuildExecutionOrder(dp: DirectedGraph) returns (r: Result<seq<Node>, BuildError>)
    requires WithinIds(|dp.nodes|, dp.edges) && dp.nodes.Keys == Ids(|dp.nodes|)
    ensures r.Ok? <==> !HasCycle(dp.edges)
    ensures r.Err? ==> r.error == CyclicComponents
    ensures r.Ok? ==>
      var order := SortStabilized(|dp.nodes|, dp.edges);
      order.Some? && (forall v :: v in order.value ==> v in dp.nodes) && r.value == Arrange(dp.nodes, order.value)
  {
    SortedExactlyWhenAcyclic(|dp.nodes|, dp.edges);
    var sorted := SortStabilized(|dp.nodes|, dp.edges);
    if sorted.None? {
      return Err(CyclicComponents);
    }
    SortedOrder(|dp.nodes|, dp.edges);
    var order := sorted.value;
    assert forall v: nat :: v in order ==> v in dp.nodes;
    var nodes: seq<Node> := [];
    for i := 0 to |order|
      invariant nodes == Arrange(dp.nodes, order[..i])
    {
      assert order[i] in order;
      nodes := nodes + [dp.nodes[order[i]]];
    }
    assert order[..|order|] == order;
    return Ok(nodes);
  }

  lemma IndexedNodes(ns: seq<Node>)
    ensures IndexNodes(ns).Keys == Ids(|ns|) && |IndexNodes(ns)| == |ns| && IndexNodes(ns).Values == NodeSet(ns)
  {
    var m := IndexNodes(ns);
    assert m.Keys == Ids(|ns|);
    assert |m| == |m.Keys|;
    forall n | n in NodeSet(ns) ensures n in m.Values {
      var i :| 0 <= i < |ns| && ns[i] == n;
      assert i in m && m[i] == n;
    }
  }

  lemma NodesOfDistinct(queries: seq<Query>)
    requires UniqueRefIDs(queries) && AllRead(queries)
    ensures DistinctRefIDs(NodesOf(queries))
  {
  }

  /** With unique reference ids the registry does not depend on the visiting order. */
  lemma RegistryIsByRef(ns: seq<Node>, registry: map<string, Node>)
    requires DistinctRefIDs(ns)
    requires registry.Keys == RefIDs(NodeSet(ns))
    requires forall r :: r in registry ==> registry[r] in NodeSet(ns) && registry[r].refID == r
    ensures registry == ByRef(ns)
  {
  }

  lemma RegistryIndexed(ns: seq<Node>)
    requires forall i :: 0 <= i < |ns| ==> ns[i].id == i
    ensures WellIndexed(IndexNodes(ns), ByRef(ns))
  {
  }

  lemma FaultsIndexed(ns: seq<Node>)
    ensures NoFaultyReference(ns) <==> forall id :: id in IndexNodes(ns) ==> NoEdgeFault(ByRef(ns), IndexNodes(ns)[id])
  {
    var nodes := IndexNodes(ns);
    if forall id :: id in nodes ==> NoEdgeFault(ByRef(ns), nodes[id]) {
      forall n | n in ns ensures NoEdgeFault(ByRef(ns), n) {
        var i :| 0 <= i < |ns| && ns[i] == n;
        assert i in nodes && nodes[i] == n;
      }
    }
  }

  method BuildDependencyGraph(queries: seq<Query>, mlExpressions: bool) returns (dp: DirectedGraph, err: Option<BuildError>)
    requires UniqueRefIDs(queries)
    ensures fresh(dp)
    ensures err.None? <==> NoQueryFault(queries, mlExpressions) && NoFaultyReference(NodesOf(queries))
    ensures err.None? ==> dp.nodes == IndexNodes(NodesOf(queries)) && dp.edges == References(NodesOf(queries))
    ensures err.Some? ==> ExplainsFailure(queries, mlExpressions, err.value)
  {
    dp, err := BuildGraph(queries, mlExpressions);
    if err.Some? {
      return;
    }
    ghost var ns := NodesOf(queries);
    IndexedNodes(ns);
    var registry := BuildNodeRegistry(dp);
    NodesOfDistinct(queries);
    RegistryIsByRef(ns, registry);
    RegistryIndexed(ns);
    FaultsIndexed(ns);
    err := BuildGraphEdges(dp, registry);
    if err.Some? {
      var id, v :|
        id in dp.nodes && dp.nodes[id].body.Expression? && v in dp.nodes[id].NeedsVars() && err == EdgeFault(registry, dp.nodes[id], v);
      assert dp.nodes[id] in ns;
    }
  }

  /** The first faulty query, else some faulty reference, else a cycle. */
  ghost predicate ExplainsFailure(queries: seq<Query>, mlExpressions: bool, e: BuildError) {
    if !NoQueryFault(queries, mlExpressions) then
      exists i :: 0 <= i < |queries| && QueryFault(queries[i], mlExpressions) == Some(e) && NoQueryFault(queries[..i], mlExpressions)
    else
      var ns := NodesOf(queries);
      if !NoFaultyReference(ns) then
        exists n, v :: n in ns && n.body.Expression? && v in n.NeedsVars() && EdgeFault(ByRef(ns), n, v) == Some(e)
      else e == CyclicComponents
  }

  /** An arrangement is returned if and only if the request is acceptable. */
  method BuildPipeline(queries: seq<Query>, mlExpressions: bool) returns (r: Result<seq<Node>, BuildError>)
    requires UniqueRefIDs(queries) && AllDecoded(queries)
    ensures r.Ok? <==> Acceptable(queries, mlExpressions)
    ensures r.Ok? ==> IsPipelineOf(NodesOf(queries), r.value)
    ensures r.Err? ==> ExplainsFailure(queries, mlExpressions, r.error)
  {
    var graph, err := BuildDependencyGraph(queries, mlExpressions);
    if err.Some? {
      return Err(err.value);
    }
    ghost var ns := NodesOf(queries);
    RequestNodes(queries, mlExpressions);
    IndexedNodes(ns);
    r := BuildExecutionOrder(graph);
    if r.Ok? {
      SortedPipeline(ns);
    }
  }

  lemma RequestNodes(queries: seq<Query>, mlExpressions: bool)
    requires UniqueRefIDs(queries) && NoQueryFault(queries, mlExpressions) && AllDecoded(queries)
    ensures Built(NodesOf(queries)) && DistinctRefIDs(NodesOf(queries))
    ensures forall n :: n in NodesOf(queries) ==> n.Valid()
    ensures WithinIds(|queries|, References(NodesOf(queries)))
  {
    var ns := NodesOf(queries);
    forall i | 0 <= i < |ns| ensures ns[i].Executable() && ns[i].Valid() {
      assert queries[i].Decoded();
    }
    NodesOfDistinct(queries);
    ReferencesWithin(ns);
  }

  /** An acyclic, faultless set of nodes is arranged into a pipeline. */
  lemma SortedPipeline(ns: seq<Node>)
    requires Built(ns) && DistinctRefIDs(ns) && NoFaultyReference(ns) && !HasCycle(References(ns))
    ensures SortStabilized(|ns|, References(ns)).Some?
    ensures forall v :: v in SortStabilized(|ns|, References(ns)).value ==> v in IndexNodes(ns)
    ensures IsPipelineOf(ns, Arrange(IndexNodes(ns), SortStabilized(|ns|, References(ns)).value))
  {
    ReferencesWithin(ns);
    SortedExactlyWhenAcyclic(|ns|, References(ns));
    SortedOrder(|ns|, References(ns));
    ArrangedNodes(ns, SortStabilized(|ns|, References(ns)).value);
  }

  /**
   * What a built pipeline is: the nodes of the request, each once, every input a node that stands
   * before its users, and data source queries in the order of the request.
   */
  ghost predicate IsPipelineOf(ns: seq<Node>, p: seq<Node>) {
    && |p| == |ns| && DistinctRefIDs(p) && (forall n :: n in p <==> n in ns)
    && InputsFirst(p)
    && (forall n, v :: n in p && v in n.NeedsVars() ==> v in ByRef(p))
    && (forall i, j :: 0 <= i < j < |ns| && ns[i].body.DataSourceQuery? && ns[j].body.DataSourceQuery? ==> Precedes(p, ns[i], ns[j]))
  }

  ghost predicate Precedes(p: seq<Node>, a: Node, b: Node) {
    exists k, l :: 0 <= k < l < |p| && p[k] == a && p[l] == b
  }

  /** Node ids are query indices, and only the four known kinds of node are built. */
  ghost predicate Built(ns: seq<Node>) {
    forall i :: 0 <= i < |ns| ==> ns[i].id == i && ns[i].Executable()
  }

  lemma ReferencesWithin(ns: seq<Node>)
    requires Built(ns)
    ensures WithinIds(|ns|, References(ns))
  {
  }

  lemma ArrangedSame(ns: seq<Node>, order: seq<nat>)
    requires Built(ns) && DistinctRefIDs(ns) && IsPermutation(|ns|, order)
    ensures
      var p := Arrange(IndexNodes(ns), order);
      |p| == |ns| && DistinctRefIDs(p) && (forall n :: n in p <==> n in ns) && ByRef(p) == ByRef(ns)
  {
    var p := Arrange(IndexNodes(ns), order);
    forall n ensures n in p <==> n in ns {
      if n in ns {
        var i :| 0 <= i < |ns| && ns[i] == n;
        assert i in order;
        var k :| 0 <= k < |order| && order[k] == i;
        assert p[k] == n;
      }
      if n in p {
        var k :| 0 <= k < |p| && p[k] == n;
        assert order[k] in order;
      }
    }
    forall i, j | 0 <= i < j < |p| ensures p[i].refID != p[j].refID {
      assert order[i] in order && order[j] in order && order[i] != order[j];
    }
    ByRefOfSame(ns, p);
  }

  lemma ArrangedInputBefore(ns: seq<Node>, order: seq<nat>, k: nat, v: string)
    requires Built(ns) && DistinctRefIDs(ns) && TopologicalOrder(|ns|, References(ns), order)
    requires k < |order| && order[k] < |ns| && v in ns[order[k]].NeedsVars() && v in ByRef(ns)
    ensures exists i :: 0 <= i < k && order[i] < |ns| && ns[order[i]].refID == v
  {
    var user, input := ns[order[k]], ByRef(ns)[v];
    assert user in ns && user.body.Expression?;
    assert (input.id, user.id) in References(ns);
    assert Before(order, input.id, user.id);
    var i, j :| 0 <= i < j < |order| && order[i] == input.id && order[j] == user.id;
    assert j == k;
  }

  lemma StandsBefore(p: seq<Node>, i: nat, k: nat)
    requires i < k <= |p|
    ensures p[i].refID in ByRef(p[..k])
  {
    assert p[..k][i] == p[i];
  }

  lemma ArrangedInput(ns: seq<Node>, order: seq<nat>, k: nat, v: string)
    requires Built(ns) && DistinctRefIDs(ns) && TopologicalOrder(|ns|, References(ns), order)
    requires k < |order| && v in Arrange(IndexNodes(ns), order)[k].NeedsVars() && v in ByRef(ns)
    ensures v in ByRef(Arrange(IndexNodes(ns), order)[..k])
  {
    var p := Arrange(IndexNodes(ns), order);
    assert order[k] in order;
    ArrangedInputBefore(ns, order, k, v);
    var i :| 0 <= i < k && order[i] < |ns| && ns[order[i]].refID == v;
    assert p[i] == ns[order[i]];
    StandsBefore(p, i, k);
  }

  lemma ArrangedInputsFirst(ns: seq<Node>, order: seq<nat>)
    requires Built(ns) && DistinctRefIDs(ns) && TopologicalOrder(|ns|, References(ns), order)
    ensures InputsFirst(Arrange(IndexNodes(ns), order))
  {
    var p := Arrange(IndexNodes(ns), order);
    ArrangedSame(ns, order);
    forall k, v | 0 <= k < |p| && v in p[k].NeedsVars() && v in ByRef(p) ensures v in ByRef(p[..k]) {
      ArrangedInput(ns, order, k, v);
    }
  }

  lemma ArrangedQueriesInOrder(ns: seq<Node>, order: seq<nat>, i: nat, j: nat)
    requires Built(ns) && IsPermutation(|ns|, order) && i < j < |ns|
    requires ns[i].body.DataSourceQuery? && ns[j].body.DataSourceQuery?
    requires IsSource(References(ns), i) && IsSource(References(ns), j) ==> Before(order, i, j)
    ensures Precedes(Arrange(IndexNodes(ns), order), ns[i], ns[j])
  {
    var p := Arrange(IndexNodes(ns), order);
    var k, l :| 0 <= k < l < |order| && order[k] == i && order[l] == j;
    assert p[k] == ns[i] && p[l] == ns[j];
  }

  lemma ArrangedNodes(ns: seq<Node>, order: seq<nat>)
    requires Built(ns) && DistinctRefIDs(ns) && NoFaultyReference(ns)
    requires TopologicalOrder(|ns|, References(ns), order)
    requires forall u: nat, v: nat :: u < v < |ns| && IsSource(References(ns), u) && IsSource(References(ns), v) ==> Before(order, u, v)
    ensures IsPipelineOf(ns, Arrange(IndexNodes(ns), order))
  {
    ArrangedSame(ns, order);
    ArrangedInputsFirst(ns, order);
    var p := Arrange(IndexNodes(ns), order);
    forall n, v | n in p && v in n.NeedsVars() ensures v in ByRef(p) {
      assert NoEdgeFault(ByRef(ns), n);
    }
    forall i, j | 0 <= i < j < |ns| && ns[i].body.DataSourceQuery? && ns[j].body.DataSourceQuery?
      ensures Precedes(p, ns[i], ns[j])
    {
      ArrangedQueriesInOrder(ns, order, i, j);
    }
  }

  // ---------------------------------------------------------------- what is asked of the queries

  /** What a query needs to get a node. */
  predicate GetsNode(q: Query, mlExpressions: bool) {
    q.datasourceUID != "" && q.undecodable.None? && (q.datasourceUID == "__ml__" ==> mlExpressions) && q.content.Ok?
  }

  /** The data source says what kind of node a query becomes; the first thing wrong with a query is reported. */
  lemma QueryFaultMeaning(q: Query, mlExpressions: bool)
    ensures QueryFault(q, mlExpressions).None? <==> GetsNode(q, mlExpressions)
    ensures QueryFault(q, mlExpressions) == Some(MissingDataSource(q.refID)) <==> q.datasourceUID == ""
    ensures q.datasourceUID != "" && q.undecodable.Some? ==> QueryFault(q, mlExpressions) == Some(Undecodable(q.undecodable.value))
    ensures q.datasourceUID == "__ml__" && q.undecodable.None? && !mlExpressions ==>
      QueryFault(q, mlExpressions) == Some(UnsupportedNodeType(q.refID))
    ensures QueryFault(q, mlExpressions).Some? && QueryFault(q, mlExpressions).value.BadQuery? ==>
      q.content.Err? && QueryFault(q, mlExpressions) == Some(BadQuery(q.refID, q.content.error))
    ensures q.Decoded() && q.content.Ok? ==>
      && (q.content.value.Expression? <==> q.datasourceUID in {"__expr__", "-100"})
      && (q.content.value.MachineLearning? <==> q.datasourceUID == "__ml__")
  {
  }

  predicate IsClassic(q: Query) {
    q.content.Ok? && q.content.value.Expression? && q.content.value.command.ConditionsCommand?
  }

  /** Query i is an expression that reads the results of this name. */
  predicate ReadsName(queries: seq<Query>, i: nat, name: string) {
    i < |queries| && queries[i].content.Ok? && queries[i].content.value.Expression? && Reads(queries[i].content.value.command, name)
  }

  /** Query j bears the name and may be read by query i. */
  predicate MayRead(queries: seq<Query>, i: nat, j: nat, name: string)
    requires i < |queries| && AllRead(queries)
  {
    && j < |queries| && queries[j].refID == name && j != i && !IsClassic(queries[j])
    && (IsClassic(queries[i]) ==> queries[j].content.value.DataSourceQuery?)
  }

  /** From every query to the expressions that read it. */
  function ReadingEdges(queries: seq<Query>): Edges {
    set j: nat, i: nat | j < |queries| && i < |queries| && ReadsName(queries, i, queries[j].refID) :: (j, i)
  }

  lemma NodeOfName(queries: seq<Query>, i: nat, name: string)
    requires UniqueRefIDs(queries) && AllRead(queries) && i < |queries|
    ensures
      var ns := NodesOf(queries);
      && ns[i] in ns
      && (name in ByRef(ns) <==> exists j :: 0 <= j < |queries| && queries[j].refID == name)
      && (queries[i].refID == name ==> name in ByRef(ns) && ByRef(ns)[name] == Node(i, name, queries[i].content.value))
      && (queries[i].content.value.Expression? ==> (name in ns[i].NeedsVars() <==> ReadsName(queries, i, name)))
  {
    var ns := NodesOf(queries);
    NodesOfDistinct(queries);
    ByRefOfDistinct(ns, i);
    if name in ByRef(ns) {
      var k :| 0 <= k < |ns| && ns[k] == ByRef(ns)[name];
      assert queries[k].refID == name;
    }
    forall j | 0 <= j < |queries| && queries[j].refID == name ensures name in ByRef(ns) {
      assert ns[j] in ns;
    }
    if ns[i].Executable() {
      NeedsAreReads(ns[i], name);
    }
  }

  lemma EdgesAreReadings(queries: seq<Query>)
    requires UniqueRefIDs(queries) && AllRead(queries)
    ensures References(NodesOf(queries)) == ReadingEdges(queries)
  {
    var ns := NodesOf(queries);
    forall node, v | node in NodeSet(ns) && node.body.Expression? && v in node.NeedsVars() && v in ByRef(ns)
      ensures (ByRef(ns)[v].id, node.id) in ReadingEdges(queries)
    {
      var i :| 0 <= i < |ns| && ns[i] == node;
      NodeOfName(queries, i, v);
      var j :| 0 <= j < |queries| && queries[j].refID == v;
      NodeOfName(queries, j, v);
    }
    forall j: nat, i: nat | j < |queries| && i < |queries| && ReadsName(queries, i, queries[j].refID)
      ensures (j, i) in References(ns)
    {
      NodeOfName(queries, j, queries[j].refID);
      NodeOfName(queries, i, queries[j].refID);
      assert ns[i] in NodeSet(ns) && ByRef(ns)[queries[j].refID].id == j;
    }
  }

  /** What is wrong with the reference of query i to query j. */
  lemma EdgeFaultMeaning(queries: seq<Query>, i: nat, j: nat)
    requires UniqueRefIDs(queries) && AllRead(queries) && i < |queries| && j < |queries| && queries[i].content.value.Expression?
    ensures
      var name := queries[j].refID;
      var fault := EdgeFault(ByRef(NodesOf(queries)), NodesOf(queries)[i], name);
      && (fault == None <==> MayRead(queries, i, j, name))
      && (fault == Some(SelfReference(name)) <==> i == j)
      && (fault == Some(OnlyQueriesIntoClassic(name)) <==>
            i != j && IsClassic(queries[i]) && !queries[j].content.value.DataSourceQuery?)
      && (fault == Some(ClassicIsNoInput(name, queries[i].refID)) <==> i != j && !IsClassic(queries[i]) && IsClassic(queries[j]))
  {
    NodeOfName(queries, j, queries[j].refID);
    FaultBetween(ByRef(NodesOf(queries)), NodesOf(queries)[i], Node(j, queries[j].refID, queries[j].content.value));
  }

  lemma FaultBetween(registry: map<string, Node>, node: Node, needed: Node)
    requires node.body.Expression? && needed.refID in registry && registry[needed.refID] == needed
    ensures
      var name := needed.refID;
      var fault := EdgeFault(registry, node, name);
      var into, from := node.body.command.ConditionsCommand?, needed.body.Expression? && needed.body.command.ConditionsCommand?;
      && (fault == None <==> node.id != needed.id && !from && (into ==> needed.body.DataSourceQuery?))
      && (fault == Some(SelfReference(name)) <==> node.id == needed.id)
      && (fault == Some(OnlyQueriesIntoClassic(name)) <==> node.id != needed.id && into && !needed.body.DataSourceQuery?)
      && (fault == Some(ClassicIsNoInput(name, node.refID)) <==> node.id != needed.id && !into && from)
  {
  }

  /** A reference is without fault exactly when some query may be read under its name, and missing when none bears the name. */
  lemma ReadableExactlyWhenNoFault(queries: seq<Query>, i: nat, name: string)
    requires UniqueRefIDs(queries) && AllRead(queries) && i < |queries| && queries[i].content.value.Expression?
    ensures
      var fault := EdgeFault(ByRef(NodesOf(queries)), NodesOf(queries)[i], name);
      && (fault == None <==> exists j :: MayRead(queries, i, j, name))
      && (fault == Some(MissingDependency(name)) <==> forall j :: 0 <= j < |queries| ==> queries[j].refID != name)
  {
    NodeOfName(queries, i, name);
    forall j | 0 <= j < |queries| && queries[j].refID == name
      ensures name in ByRef(NodesOf(queries))
      ensures EdgeFault(ByRef(NodesOf(queries)), NodesOf(queries)[i], name) == None <==> MayRead(queries, i, j, name)
    {
      EdgeFaultMeaning(queries, i, j);
      NodeOfName(queries, j, name);
    }
  }

  /**
   * A request is acceptable if and only if every query gets a node, every name that an expression
   * reads is borne by another query that it may read, and no expression reads itself through others.
   */
  lemma AcceptableMeaning(queries: seq<Query>, mlExpressions: bool)
    requires UniqueRefIDs(queries)
    ensures Acceptable(queries, mlExpressions) <==>
      && (forall i :: 0 <= i < |queries| ==> GetsNode(queries[i], mlExpressions))
      && (forall i: nat, name :: ReadsName(queries, i, name) ==> exists j :: MayRead(queries, i, j, name))
      && !HasCycle(ReadingEdges(queries))
  {
    forall q ensures QueryFault(q, mlExpressions).None? <==> GetsNode(q, mlExpressions) {
      QueryFaultMeaning(q, mlExpressions);
    }
    if NoQueryFault(queries, mlExpressions) {
      EdgesAreReadings(queries);
      ReadableReferences(queries);
    }
  }

  lemma ReadableReferences(queries: seq<Query>)
    requires UniqueRefIDs(queries) && AllRead(queries)
    ensures NoFaultyReference(NodesOf(queries)) <==>
      forall i: nat, name :: ReadsName(queries, i, name) ==> exists j :: MayRead(queries, i, j, name)
  {
    var ns := NodesOf(queries);
    forall i: nat, name | ReadsName(queries, i, name)
      ensures name in ns[i].NeedsVars() && ns[i] in ns
      ensures EdgeFault(ByRef(ns), ns[i], name) == None <==> exists j :: MayRead(queries, i, j, name)
    {
      NodeOfName(queries, i, name);
      ReadableExactlyWhenNoFault(queries, i, name);
    }
    if forall i: nat, name :: ReadsName(queries, i, name) ==> exists j :: MayRead(queries, i, j, name) {
      forall n, v | n in ns && n.body.Expression? && v in n.NeedsVars() ensures EdgeFault(ByRef(ns), n, v) == None {
        var i :| 0 <= i < |ns| && ns[i] == n;
        NodeOfName(queries, i, v);
      }
    }
  }
}
