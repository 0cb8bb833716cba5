/**
 * The second execution mode (pkg/expr/nodes.go, pkg/expr/graph.go): data source queries run
 * first, one request per data source, and only then the expressions.
 */
module Grouped {
  import opened Basics
  import opened MathExp
  import opened Hysteresis
  import opened Nodes
  import opened Pipeline
  import opened Graph
  import opened Threshold

  datatype Key = Key(uid: string, id: int, orgID: int)

  /** A data source node of the pipeline. */
  type DSNode = n: Node | n.body.DataSourceQuery?
    witness Node(0, "", DataSourceQuery(DataSource(0, "", ""), 0, RequestContext("", map[]), 0))

  function KeyOf(node: DSNode): Key {
    Key(node.body.datasource.uid, node.body.datasource.id, node.body.orgID)
  }

  /** Queries go together exactly when data source and organisation are the same. */
  lemma SameKey(a: DSNode, b: DSNode)
    ensures KeyOf(a) == KeyOf(b) <==>
      a.body.datasource.uid == b.body.datasource.uid && a.body.datasource.id == b.body.datasource.id && a.body.orgID == b.body.orgID
  {
  }

  /** The queries of one data source, in their order. */
  function GroupOf(nodes: seq<DSNode>, key: Key): (g: seq<DSNode>)
    ensures forall n :: n in g <==> n in nodes && KeyOf(n) == key
    ensures |g| <= |nodes|
  {
    if nodes == [] then []
    else
      var front := GroupOf(nodes[..|nodes| - 1], key);
      assert nodes == nodes[..|nodes| - 1] + [nodes[|nodes| - 1]];
      if KeyOf(nodes[|nodes| - 1]) == key then front + [nodes[|nodes| - 1]] else front
  }

  /** A group keeps the order of the pipeline: exactly the pairs of its own queries, as they stand there. */
  lemma {:induction false} GroupKeepsOrder(nodes: seq<DSNode>, key: Key, a: DSNode, b: DSNode)
    ensures Precedes(GroupOf(nodes, key), a, b) <==> Precedes(nodes, a, b) && KeyOf(a) == key && KeyOf(b) == key
  {
    if nodes != [] {
      var front, last := nodes[..|nodes| - 1], nodes[|nodes| - 1];
      GroupKeepsOrder(front, key, a, b);
      assert nodes == front + [last];
      PrecedesAppend(front, last, a, b);
      PrecedesAppend(GroupOf(front, key), last, a, b);
    }
  }

  lemma PrecedesAppend(s: seq<Node>, last: Node, a: Node, b: Node)
    ensures Precedes(s + [last], a, b) <==> Precedes(s, a, b) || (a in s && b == last)
  {
    var t := s + [last];
    if Precedes(s, a, b) {
      var k, l :| 0 <= k < l < |s| && s[k] == a && s[l] == b;
      assert t[k] == a && t[l] == b;
    }
    if a in s && b == last {
      var k :| 0 <= k < |s| && s[k] == a;
      assert t[k] == a && t[|s|] == b;
    }
  }

  lemma {:induction false} GroupDistinct(nodes: seq<DSNode>, key: Key)
    requires DistinctRefIDs(nodes)
    ensures DistinctRefIDs(GroupOf(nodes, key))
  {
    if nodes != [] {
      var front, last := nodes[..|nodes| - 1], nodes[|nodes| - 1];
      GroupDistinct(front, key);
      forall n | n in GroupOf(front, key) ensures n.refID != last.refID {
        var i :| 0 <= i < |front| && front[i] == n;
      }
    }
  }

  /** The map the grouping loop builds. */
  function ByKey(nodes: seq<DSNode>): map<Key, seq<DSNode>> {
    if nodes == [] then map[]
    else
      var front, last := ByKey(nodes[..|nodes| - 1]), nodes[|nodes| - 1];
      front[KeyOf(last) := (if KeyOf(last) in front then front[KeyOf(last)] else []) + [last]]
  }

  /** It holds the group of each key, and no key without a query. */
  lemma {:induction false} ByKeyGroups(nodes: seq<DSNode>, key: Key)
    ensures key in ByKey(nodes) <==> GroupOf(nodes, key) != []
    ensures key in ByKey(nodes) ==> ByKey(nodes)[key] == GroupOf(nodes, key)
    ensures (forall n :: n in nodes ==> KeyOf(n) != key) ==> key !in ByKey(nodes)
  {
    if nodes != [] {
      ByKeyGroups(nodes[..|nodes| - 1], key);
      assert nodes == nodes[..|nodes| - 1] + [nodes[|nodes| - 1]];
    }
  }

  /** The groups partition the queries: each query is in the group of its key and in no other. */
  method GroupByDatasource(nodes: seq<DSNode>) returns (byDS: map<Key, seq<DSNode>>)
    ensures forall n :: n in nodes ==> KeyOf(n) in byDS
    ensures forall k :: k in byDS ==> byDS[k] == GroupOf(nodes, k) && byDS[k] != []
  {
    byDS := map[];
    for i := 0 to |nodes|
      invariant byDS == ByKey(nodes[..i])
    {
      var node := nodes[i];
      var k := KeyOf(node);
      assert nodes[..i + 1][..i] == nodes[..i];
      byDS := byDS[k := (if k in byDS then byDS[k] else []) + [node]];
    }
    assert nodes[..|nodes|] == nodes;
    forall k ensures k in byDS ==> byDS[k] == GroupOf(nodes, k) && byDS[k] != [] {
      ByKeyGroups(nodes, k);
    }
    forall n | n in nodes ensures KeyOf(n) in byDS {
      ByKeyGroups(nodes, KeyOf(n));
      assert n in GroupOf(nodes, KeyOf(n));
    }
  }

  // ---------------------------------------------------------------- one group

  function Batch(group: seq<DSNode>): seq<DataQuery>
  {
    seq(|group|, i requires 0 <= i < |group| => ToDataQuery(group[i]))
  }

  /** The same error for every query of the group. */
  function FailAll(group: seq<DSNode>, e: Error): Vars {
    if group == [] then map[]
    else FailAll(group[..|group| - 1], e)[group[|group| - 1].refID := Results([], Some(e))]
  }

  /** What a response stores for one query. */
  function Delivered(w: World, answers: map<string, Answer>, node: DSNode): Results
  {
    match GetResponseFrame(answers, node.refID)
    case Err(e) => Results([], Some(QueryError(node.refID, node.body.datasource.uid, e)))
    case Ok(frames) =>
      var o := ConvertFrames(w, frames, node.body.datasource.dsType);
      if o.error.Some? then o.results.(error := Some(ConversionError(node.refID, o.error.value))) else o.results
  }

  /** Queries are delivered in order; the first failed response ends the group. */
  function Deliver(w: World, answers: map<string, Answer>, group: seq<DSNode>): Vars {
    if group == [] then map[]
    else
      var here := map[group[0].refID := Delivered(w, answers, group[0])];
      if GetResponseFrame(answers, group[0].refID).Err? then here
      else here + Deliver(w, answers, group[1..])
  }

  /** Everything the request of one group stores. The first query speaks for the group. */
  function GroupEntries(w: World, group: seq<DSNode>): Vars {
    if group == [] then map[]
    else
      var first := group[0];
      match w.pluginContext(first.body.datasource.dsType, first.body.request.user, first.body.datasource)
      case Err(_) => FailAll(group, DataSourceNotFound)
      case Ok(context) =>
        match QueryData(w, context, first.body.request.headers, Batch(group))
        case Err(e) => FailAll(group, QueryError(first.refID, first.body.datasource.uid, e))
        case Ok(answers) => Deliver(w, answers, group)
  }

  lemma PlusUpdate(a: Vars, b: Vars, r: string, x: Results)
    ensures (a + b)[r := x] == a + b[r := x]
  {
  }

  lemma UpdatePlus(a: Vars, b: Vars, r: string, x: Results)
    requires r !in b
    ensures a[r := x] + b == a + (map[r := x] + b)
  {
  }

  lemma PlusAssociates(a: Vars, b: Vars, c: Vars)
    ensures (a + b) + c == a + (b + c)
  {
  }

  /** The loop that stores one error for every query of a group. */
  method StoreFailure(group: seq<DSNode>, e: Error, store: VarStore)
    modifies store
    ensures store.vars == old(store.vars) + FailAll(group, e)
  {
    ghost var stored: Vars := map[];
    for i := 0 to |group|
      invariant stored == FailAll(group[..i], e)
      invariant store.vars == old(store.vars) + stored
    {
      var dn := group[i];
      assert group[..i + 1][..i] == group[..i];
      PlusUpdate(old(store.vars), stored, dn.refID, Results([], Some(e)));
      stored := stored[dn.refID := Results([], Some(e))];
      store.vars := store.vars[dn.refID := Results([], Some(e))];
    }
    assert group[..|group|] == group;
  }

  /** The loop over the responses of one request. */
  method StoreResponses(w: World, answers: map<string, Answer>, group: seq<DSNode>, store: VarStore)
    requires DistinctRefIDs(group)
    modifies store
    ensures store.vars == old(store.vars) + Deliver(w, answers, group)
  {
    for i := 0 to |group|
      invariant store.vars + Deliver(w, answers, group[i..]) == old(store.vars) + Deliver(w, answers, group)
    {
      var dn := group[i];
      assert group[i..][0] == dn && group[i..][1..] == group[i + 1..];
      DeliverSkipsHead(w, answers, group, i);
      var dataFrames := GetResponseFrame(answers, dn.refID);
      if dataFrames.Err? {
        store.vars := store.vars[dn.refID := Results([], Some(QueryError(dn.refID, dn.body.datasource.uid, dataFrames.error)))];
        return;
      }
      var o := ConvertFrames(w, dataFrames.value, dn.body.datasource.dsType);
      var result := o.results;
      if o.error.Some? {
        result := result.(error := Some(ConversionError(dn.refID, o.error.value)));
      }
      UpdatePlus(store.vars, Deliver(w, answers, group[i + 1..]), dn.refID, result);
      store.vars := store.vars[dn.refID := result];
    }
  }

  lemma {:induction false} DeliverKeys(w: World, answers: map<string, Answer>, group: seq<DSNode>)
    ensures forall r :: r in Deliver(w, answers, group) ==> exists n :: n in group && n.refID == r
  {
    if group != [] {
      DeliverKeys(w, answers, group[1..]);
      assert group[0] in group && forall n :: n in group[1..] ==> n in group;
    }
  }

  lemma DeliverSkipsHead(w: World, answers: map<string, Answer>, group: seq<DSNode>, i: nat)
    requires DistinctRefIDs(group) && i < |group|
    ensures group[i].refID !in Deliver(w, answers, group[i + 1..])
  {
    var rest := group[i + 1..];
    DeliverKeys(w, answers, rest);
    forall n | n in rest ensures n.refID != group[i].refID {
      var j :| 0 <= j < |rest| && rest[j] == n;
      assert group[i + 1 + j] == n;
    }
  }

  lemma {:induction false} FailAllMeaning(group: seq<DSNode>, e: Error)
    ensures forall r :: r in FailAll(group, e) ==> FailAll(group, e)[r] == Results([], Some(e))
    ensures forall n :: n in group ==> n.refID in FailAll(group, e)
    ensures forall r :: r in FailAll(group, e) ==> exists n :: n in group && n.refID == r
  {
    if group != [] {
      var front, last := group[..|group| - 1], group[|group| - 1];
      FailAllMeaning(front, e);
      assert group == front + [last] && last in group;
    }
  }

  lemma GroupEntriesKeys(w: World, group: seq<DSNode>, r: string)
    requires r in GroupEntries(w, group)
    ensures exists n :: n in group && n.refID == r
  {
    var first := group[0];
    FailAllMeaning(group, DataSourceNotFound);
    var pCtx := w.pluginContext(first.body.datasource.dsType, first.body.request.user, first.body.datasource);
    if pCtx.Ok? {
      match QueryData(w, pCtx.value, first.body.request.headers, Batch(group))
      case Err(e) => FailAllMeaning(group, QueryError(first.refID, first.body.datasource.uid, e));
      case Ok(answers) => DeliverKeys(w, answers, group);
    }
  }

  method ExecuteGroup(w: World, group: seq<DSNode>, store: VarStore)
    requires group != [] && DistinctRefIDs(group)
    modifies store
    ensures store.vars == old(store.vars) + GroupEntries(w, group)
  {
    var firstNode := group[0];
    var pCtx := w.pluginContext(firstNode.body.datasource.dsType, firstNode.body.request.user, firstNode.body.datasource);
    if pCtx.Err? {
      StoreFailure(group, DataSourceNotFound, store);
      return;
    }
    var queries: seq<DataQuery> := [];
    for i := 0 to |group|
      invariant queries == Batch(group[..i])
    {
      queries := queries + [ToDataQuery(group[i])];
    }
    assert group[..|group|] == group;
    var resp := QueryData(w, pCtx.value, firstNode.body.request.headers, queries);
    if resp.Err? {
      StoreFailure(group, QueryError(firstNode.refID, firstNode.body.datasource.uid, resp.error), store);
    } else {
      StoreResponses(w, resp.value, group, store);
    }
  }

  // ---------------------------------------------------------------- all groups

  /** What grouped execution stores for one query, if anything. */
  function Entry(w: World, nodes: seq<DSNode>, n: DSNode): Option<Results>
  {
    var entries := GroupEntries(w, GroupOf(nodes, KeyOf(n)));
    if n.refID in entries then Some(entries[n.refID]) else None
  }

  /** What the groups with a key in `keys` store. */
  function EntriesOf(w: World, nodes: seq<DSNode>, keys: set<Key>): Vars
  {
    map r | r in ByRef(nodes) && KeyOf(ByRef(nodes)[r]) in keys && Entry(w, nodes, ByRef(nodes)[r]).Some? ::
      Entry(w, nodes, ByRef(nodes)[r]).value
  }

  /** What grouped execution stores: for each query its entry. No visiting order of the groups appears. */
  function GroupedVars(w: World, nodes: seq<DSNode>): Vars
  {
    map r | r in ByRef(nodes) && Entry(w, nodes, ByRef(nodes)[r]).Some? :: Entry(w, nodes, ByRef(nodes)[r]).value
  }

  lemma GroupStores(w: World, nodes: seq<DSNode>, key: Key)
    requires DistinctRefIDs(nodes)
    ensures GroupEntries(w, GroupOf(nodes, key)) == EntriesOf(w, nodes, {key})
  {
    var entries := GroupEntries(w, GroupOf(nodes, key));
    forall r | r in entries ensures r in ByRef(nodes) && KeyOf(ByRef(nodes)[r]) == key {
      GroupEntriesKeys(w, GroupOf(nodes, key), r);
      var n :| n in GroupOf(nodes, key) && n.refID == r;
      var i :| 0 <= i < |nodes| && nodes[i] == n;
      ByRefOfDistinct(nodes, i);
    }
  }

  /** Serving one more group on top of those already served. */
  method ServeGroup(w: World, nodes: seq<DSNode>, ghost base: Vars, ghost served: set<Key>, key: Key, group: seq<DSNode>, store: VarStore)
    requires DistinctRefIDs(nodes) && group == GroupOf(nodes, key) && group != []
    requires store.vars == base + EntriesOf(w, nodes, served)
    modifies store
    ensures store.vars == base + EntriesOf(w, nodes, served + {key})
  {
    GroupDistinct(nodes, key);
    OneMoreGroup(w, nodes, base, served, key);
    ExecuteGroup(w, group, store);
  }

  /** The groups are served in an arbitrary order; what they store together does not depend on it. */
  method ExecuteDSNodesGrouped(w: World, nodes: seq<DSNode>, store: VarStore)
    requires DistinctRefIDs(nodes)
    modifies store
    ensures store.vars == old(store.vars) + GroupedVars(w, nodes)
  {
    var byDS := GroupByDatasource(nodes);
    var rest := byDS.Keys;
    ghost var served: set<Key> := {};
    NoEntries(w, nodes, store.vars);
    while rest != {}
      invariant rest <= byDS.Keys && byDS.Keys == served + rest
      invariant store.vars == old(store.vars) + EntriesOf(w, nodes, served)
      decreases rest
    {
      var key :| key in rest;
      ServeGroup(w, nodes, old(store.vars), served, key, byDS[key], store);
      rest := rest - {key};
      served := served + {key};
    }
    AllEntries(w, nodes, served);
  }

  lemma NoEntries(w: World, nodes: seq<DSNode>, vars: Vars)
    ensures vars + EntriesOf(w, nodes, {}) == vars
  {
  }

  lemma OneMoreGroup(w: World, nodes: seq<DSNode>, vars: Vars, served: set<Key>, key: Key)
    requires DistinctRefIDs(nodes)
    ensures (vars + EntriesOf(w, nodes, served)) + GroupEntries(w, GroupOf(nodes, key)) ==
            vars + EntriesOf(w, nodes, served + {key})
  {
    GroupStores(w, nodes, key);
    EntriesJoin(w, nodes, served, key);
    PlusAssociates(vars, EntriesOf(w, nodes, served), EntriesOf(w, nodes, {key}));
  }

  lemma AllEntries(w: World, nodes: seq<DSNode>, keys: set<Key>)
    requires forall n :: n in nodes ==> KeyOf(n) in keys
    ensures EntriesOf(w, nodes, keys) == GroupedVars(w, nodes)
  {
  }

  lemma EntriesJoin(w: World, nodes: seq<DSNode>, keys: set<Key>, key: Key)
    ensures EntriesOf(w, nodes, keys + {key}) == EntriesOf(w, nodes, keys) + EntriesOf(w, nodes, {key})
  {
  }

  /** The data source queries of a pipeline, in its order. */
  function QueriesOf(dp: seq<Node>): (qs: seq<DSNode>)
    ensures forall n :: n in qs <==> n in dp && n.body.DataSourceQuery?
  {
    if dp == [] then []
    else
      assert dp == dp[..|dp| - 1] + [dp[|dp| - 1]];
      var front := QueriesOf(dp[..|dp| - 1]);
      if dp[|dp| - 1].body.DataSourceQuery? then front + [dp[|dp| - 1]] else front
  }

  lemma {:induction false} QueriesDistinct(dp: seq<Node>)
    requires DistinctRefIDs(dp)
    ensures DistinctRefIDs(QueriesOf(dp))
  {
    if dp != [] {
      var front, last := dp[..|dp| - 1], dp[|dp| - 1];
      QueriesDistinct(front);
      forall n | n in QueriesOf(front) ensures n.refID != last.refID {
        var i :| 0 <= i < |front| && front[i] == n;
      }
    }
  }

  method CollectQueries(dp: seq<Node>) returns (dsNodes: seq<DSNode>)
    ensures dsNodes == QueriesOf(dp)
  {
    dsNodes := [];
    for i := 0 to |dp|
      invariant dsNodes == QueriesOf(dp[..i])
    {
      assert dp[..i + 1][..i] == dp[..i];
      if dp[i].body.DataSourceQuery? {
        dsNodes := dsNodes + [dp[i]];
      }
    }
    assert dp[..|dp|] == dp;
  }

  /** DataPipeline.execute, in either mode. */
  method ExecutePipeline(w: World, groupByDS: bool, dp: seq<Node>) returns (vars: Vars, err: Option<Error>)
    requires DistinctRefIDs(dp) && forall n :: n in dp ==> n.Valid()
    ensures RunResult(vars, err) == Run(w, groupByDS, dp, if groupByDS then GroupedVars(w, QueriesOf(dp)) else map[])
  {
    var store := new VarStore();
    if groupByDS {
      var dsNodes := CollectQueries(dp);
      QueriesDistinct(dp);
      ExecuteDSNodesGrouped(w, dsNodes, store);
      EmptyPlus(GroupedVars(w, dsNodes));
    }
    err := ExecuteNodes(w, groupByDS, dp, store);
    vars := store.vars;
  }

  lemma EmptyPlus(m: Vars)
    ensures map[] + m == m
  {
  }
}
