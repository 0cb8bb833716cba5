/**
 * What the entries of a finished run mean, kind of node by kind of node, in either mode: which
 * results an expression stores for the stored results of its inputs, and which a query stores for
 * the answer of its data source (pkg/expr/graph.go, pkg/expr/nodes.go).
 */
module RunMeaning {
  import opened Basics
  import opened MathExp
  import opened Hysteresis
  import opened Nodes
  import opened Pipeline
  import opened Graph
  import opened Grouped
  import opened GroupedRefinement
  import Threshold

  /** The variables that a run leaves, in one mode or the other. */
  ghost predicate FinalVars(w: World, dp: seq<Node>, vars: Vars)
    requires Arranged(dp)
  {
    vars == Run(w, false, dp, map[]).vars || vars == GroupedRun(w, dp).vars
  }

  lemma NodeOf(dp: seq<Node>, n: Node)
    requires Arranged(dp) && n in dp
    ensures n.refID in ByRef(dp) && ByRef(dp)[n.refID] == n && n.Executable() && n.Valid()
  {
    var i :| 0 <= i < |dp| && dp[i] == n;
    ByRefOfDistinct(dp, i);
  }

  lemma Settled(w: World, dp: seq<Node>, vars: Vars, n: Node)
    requires Arranged(dp) && FinalVars(w, dp, vars) && n in dp && !n.body.DataSourceQuery?
    ensures n.Executable() && n.Valid() && n.refID in vars && vars[n.refID] == StepResult(w, n, vars)
  {
    NodeOf(dp, n);
    AloneRun(w, dp);
    GroupedRunSettled(w, dp, n.refID);
  }

  // ---------------------------------------------------------------- expressions

  /** The one variable that a threshold reads is stored without error. */
  ghost predicate Ready(vars: Vars, name: string) {
    name in vars && vars[name].error.None?
  }

  lemma OneInput(w: World, node: Node, vars: Vars, name: string)
    requires node.Executable() && node.Valid() && Ready(vars, name)
    requires forall v :: v in node.NeedsVars() ==> v == name
    ensures Holds(StepResult(w, node, vars), NodeOutcome(w, node, vars))
  {
    StepMeaning(w, node, vars);
  }

  /**
   * A hysteresis node stores "no data" for a reference without data, and otherwise, without error,
   * the rule applied to each stored value of its reference with the loaded set of its own command,
   * exactly when each threshold is separable on its side.
   */
  lemma HysteresisNodeStoresRules(w: World, dp: seq<Node>, vars: Vars, n: Node, h: HysteresisCommand)
    requires Arranged(dp) && FinalVars(w, dp, vars) && n in dp && n.body == Expression(HysteresisThreshold(h))
    requires Ready(vars, h.referenceVar)
    ensures n.refID in vars && h.Valid() && vars[n.refID].error == None
    ensures
      var vs, out := vars[h.referenceVar].values, vars[n.refID].values;
      if vs == [] || vs == [NoData] then out == [NoData]
      else
        && (multiset(out) == multiset(Rules(h, w.fingerprint, vs)) <==> Separable(h, w.fingerprint, vs))
        && (Separable(h, w.fingerprint, vs) ==>
              out == Rules(h, w.fingerprint, Side(h.loaded, w.fingerprint, vs, false)) +
                     Rules(h, w.fingerprint, Side(h.loaded, w.fingerprint, vs, true)))
  {
    Settled(w, dp, vars, n);
    OneInput(w, n, vars, h.referenceVar);
    var results := vars[h.referenceVar];
    NoDataIsKept(h, vars, w.fingerprint);
    if results.values != [] && results.values != [NoData] {
      MeaningIsRule(h, vars, w.fingerprint);
    }
  }

  /** A threshold node stores, without error, one verdict per stored value of its reference exactly when these are separable. */
  lemma ThresholdNodeStoresVerdicts(w: World, dp: seq<Node>, vars: Vars, n: Node, tc: ThresholdCommand)
    requires Arranged(dp) && FinalVars(w, dp, vars) && n in dp && n.body == Expression(PlainThreshold(tc))
    requires Ready(vars, tc.referenceVar)
    ensures n.refID in vars && tc.Valid() && vars[n.refID].error == None
    ensures
      var vs, out := vars[tc.referenceVar].values, vars[n.refID].values;
      && (out == Threshold.Verdicts(tc, vs) <==> Threshold.Separable(tc, vs))
      && (multiset(out) == multiset(Threshold.Verdicts(tc, vs)) <==> Threshold.Separable(tc, vs))
  {
    Settled(w, dp, vars, n);
    OneInput(w, n, vars, tc.referenceVar);
    Threshold.PointwiseExactlyWhenSeparable(tc, vars);
  }

  /** The stored results of the variables a command reads, and nothing else. */
  ghost predicate AreInputs(inputs: Vars, vars: Vars, c: Command) {
    && (forall v :: v in inputs <==> v in vars && Reads(c, v))
    && (forall v :: v in inputs ==> inputs[v] == vars[v])
  }

  /** Any other command stores what it yields on exactly the stored results it reads, when none of them carries an error. */
  lemma CommandNodeStoresOutcome(w: World, dp: seq<Node>, vars: Vars, n: Node, c: Command, inputs: Vars)
    requires Arranged(dp) && FinalVars(w, dp, vars) && n in dp && n.body == Expression(c)
    requires !c.PlainThreshold? && !c.HysteresisThreshold?
    requires AreInputs(inputs, vars, c) && forall v :: v in inputs ==> inputs[v].error.None?
    ensures n.refID in vars && Holds(vars[n.refID], w.command(c, inputs))
  {
    Settled(w, dp, vars, n);
    forall v ensures v in n.NeedsVars() <==> Reads(c, v) { NeedsAreReads(n, v); }
    StepMeaning(w, n, vars);
    assert Visible(vars, c.NeedsVars()) == inputs;
  }

  /** Machine-learning calls store what the call returns. */
  lemma CallNodeStoresOutcome(w: World, dp: seq<Node>, vars: Vars, n: Node, call: nat)
    requires Arranged(dp) && FinalVars(w, dp, vars) && n in dp && n.body == MachineLearning(call)
    ensures n.refID in vars && Holds(vars[n.refID], w.machineLearning(call))
  {
    Settled(w, dp, vars, n);
    StepMeaning(w, n, vars);
  }

  /** An expression that reads a result with an error stores the dependency error of the first such input, in either mode. */
  lemma FailedInputStopsNode(w: World, dp: seq<Node>, vars: Vars, n: Node, c: Command, v: string)
    requires Arranged(dp) && FinalVars(w, dp, vars) && n in dp && n.body == Expression(c)
    requires Reads(c, v) && v in vars && vars[v].error.Some?
    ensures n.refID in vars && IsDependencyError(vars[n.refID], n.refID, n.NeedsVars(), vars)
  {
    Settled(w, dp, vars, n);
    NeedsAreReads(n, v);
    StepMeaning(w, n, vars);
  }

  // ---------------------------------------------------------------- queries

  /** The query as it is sent. */
  function Sent(n: DSNode): DataQuery {
    DataQuery(n.refID, n.body.payload)
  }

  /** What is stored for an answer: its frames converted, no data for none, or the query error. */
  ghost predicate StoredFor(w: World, n: DSNode, a: Answer, res: Results) {
    match a
    case Absent => res == Results([NoData], None)
    case Failed(e) => res == Results([], Some(QueryError(n.refID, n.body.datasource.uid, e)))
    case Frames(fs) =>
      if fs == [] then res == Results([NoData], None)
      else
        var o := w.convert(fs, n.body.datasource.dsType);
        && res.values == o.results.values
        && res.error == if o.error.Some? then Some(ConversionError(n.refID, o.error.value)) else o.results.error
  }

  lemma DeliveredIsStoredFor(w: World, n: DSNode, answers: map<string, Answer>, a: Answer)
    requires GetResponseFrame(answers, n.refID) == FramesIn(a)
    ensures StoredFor(w, n, a, Delivered(w, answers, n))
  {
  }

  /** A query in per-node mode: the error of its context, the refusal of its own request, or what is stored for its answer. */
  lemma QueryNodeStoresAnswer(w: World, dp: seq<Node>, n: DSNode)
    requires Arranged(dp) && n in dp
    ensures n.refID in Run(w, false, dp, map[]).vars
    ensures
      var q, res := n.body, Run(w, false, dp, map[]).vars[n.refID];
      match w.pluginContext(q.datasource.dsType, q.request.user, q.datasource)
      case Err(e) => res == Results([], Some(e))
      case Ok(context) =>
        match w.refusal(context, q.request.headers, [Sent(n)])
        case Some(e) => res == Results([], Some(QueryError(n.refID, q.datasource.uid, e)))
        case None => StoredFor(w, n, w.answer(context, q.request.headers, Sent(n)), res)
  {
    NodeOf(dp, n);
    AloneRun(w, dp);
    var vars := Run(w, false, dp, map[]).vars;
    assert vars[n.refID] == StepResult(w, n, vars) == Alone(w, n);
    if Accepted(w, n) {
      var answers := Answers(w, Context(w, n).value, n.body.request.headers, Batch([n]));
      assert Batch([n]) == [ToDataQuery(n)];
      AnswerInBatch(w, Context(w, n).value, n.body.request.headers, [n], 0);
      DeliveredAlone(w, n, answers);
      DeliveredIsStoredFor(w, n, answers, Asked(w, n));
    }
  }

  /** The answer to some earlier query of the same data source is a failure. */
  ghost predicate AfterFailure(w: World, nodes: seq<DSNode>, n: DSNode, context: nat) {
    exists a: DSNode :: Precedes(nodes, a, n) && KeyOf(a) == KeyOf(n) && w.answer(context, n.body.request.headers, Sent(a)).Failed?
  }

  /** All queries of a group, as they are sent. */
  ghost predicate SentTogether(queries: seq<DataQuery>, group: seq<DSNode>) {
    |queries| == |group| && forall i :: 0 <= i < |group| ==> queries[i] == Sent(group[i])
  }

  /** The response holds, for each query of the group, the answer to it. */
  ghost predicate Answering(w: World, answers: map<string, Answer>, group: seq<DSNode>, n: DSNode, context: nat) {
    forall j :: 0 <= j < |group| ==>
      GetResponseFrame(answers, group[j].refID) == FramesIn(w.answer(context, n.body.request.headers, Sent(group[j])))
  }

  lemma ServedInGroup(w: World, nodes: seq<DSNode>, n: DSNode)
    requires DistinctRefIDs(nodes) && SharedContext(nodes) && n in nodes
    requires Context(w, n).Ok? && !Refused(w, n, Batch(GroupOf(nodes, KeyOf(n))))
    ensures
      var entries := GroupEntries(w, GroupOf(nodes, KeyOf(n)));
      if AfterFailure(w, nodes, n, Context(w, n).value) then n.refID !in entries
      else n.refID in entries && StoredFor(w, n, Asked(w, n), entries[n.refID])
  {
    var group := GroupOf(nodes, KeyOf(n));
    GroupDistinct(nodes, KeyOf(n));
    assert n in group;
    var i :| 0 <= i < |group| && group[i] == n;
    assert group[0] in group;
    var answers := Answers(w, Context(w, n).value, n.body.request.headers, Batch(group));
    assert GroupEntries(w, group) == Deliver(w, answers, group);
    forall j | 0 <= j < |group|
      ensures GetResponseFrame(answers, group[j].refID) == FramesIn(w.answer(Context(w, n).value, n.body.request.headers, Sent(group[j])))
    {
      AnswerInBatch(w, Context(w, n).value, n.body.request.headers, group, j);
    }
    if FailedBefore(answers, group, i) {
      FailedBeforeIsAfterFailure(w, nodes, n, i, Context(w, n).value, answers);
    }
    AfterFailureIsFailedBefore(w, nodes, n, i, Context(w, n).value, answers);
    DeliverAt(w, answers, group, i);
    DeliveredIsStoredFor(w, n, answers, Asked(w, n));
  }

  lemma FailedBeforeIsAfterFailure(w: World, nodes: seq<DSNode>, n: DSNode, i: nat, context: nat, answers: map<string, Answer>)
    requires i < |GroupOf(nodes, KeyOf(n))| && GroupOf(nodes, KeyOf(n))[i] == n
    requires Answering(w, answers, GroupOf(nodes, KeyOf(n)), n, context) && FailedBefore(answers, GroupOf(nodes, KeyOf(n)), i)
    ensures AfterFailure(w, nodes, n, context)
  {
    var group := GroupOf(nodes, KeyOf(n));
    var j :| 0 <= j < i && GetResponseFrame(answers, group[j].refID).Err?;
    assert group[j] in group && Precedes(group, group[j], n);
    GroupKeepsOrder(nodes, KeyOf(n), group[j], n);
  }

  lemma AfterFailureIsFailedBefore(w: World, nodes: seq<DSNode>, n: DSNode, i: nat, context: nat, answers: map<string, Answer>)
    requires DistinctRefIDs(nodes) && i < |GroupOf(nodes, KeyOf(n))| && GroupOf(nodes, KeyOf(n))[i] == n
    requires Answering(w, answers, GroupOf(nodes, KeyOf(n)), n, context)
    ensures AfterFailure(w, nodes, n, context) ==> FailedBefore(answers, GroupOf(nodes, KeyOf(n)), i)
  {
    var group := GroupOf(nodes, KeyOf(n));
    GroupDistinct(nodes, KeyOf(n));
    if a: DSNode :| Precedes(nodes, a, n) && KeyOf(a) == KeyOf(n) && w.answer(context, n.body.request.headers, Sent(a)).Failed? {
      GroupKeepsOrder(nodes, KeyOf(n), a, n);
      var k, l :| 0 <= k < l < |group| && group[k] == a && group[l] == n;
      SamePosition(group, l, i);
      assert GetResponseFrame(answers, group[k].refID).Err?;
    }
  }

  lemma SamePosition(group: seq<Node>, k: nat, l: nat)
    requires DistinctRefIDs(group) && k < |group| && l < |group| && group[k] == group[l]
    ensures k == l
  {
  }

  /** A request that is not carried out: every query of the group gets the one error, which names its first query. */
  lemma RefusedEntry(w: World, nodes: seq<DSNode>, n: DSNode)
    requires DistinctRefIDs(nodes) && SharedContext(nodes) && n in nodes
    requires Context(w, n).Ok? ==> Refused(w, n, Batch(GroupOf(nodes, KeyOf(n))))
    ensures
      var group := GroupOf(nodes, KeyOf(n));
      && group != [] && n.refID in GroupEntries(w, group)
      && GroupEntries(w, group)[n.refID] ==
           if Context(w, n).Err? then Results([], Some(DataSourceNotFound))
           else Results([], Some(QueryError(group[0].refID, group[0].body.datasource.uid, Refusal(w, n, Batch(group)).value)))
  {
    var group := GroupOf(nodes, KeyOf(n));
    assert n in group && group[0] in group;
    FailAllMeaning(group, DataSourceNotFound);
    if Context(w, n).Ok? {
      FailAllMeaning(group, QueryError(group[0].refID, group[0].body.datasource.uid, Refusal(w, n, Batch(group)).value));
    }
  }

  /**
   * A query in the second mode: the one error of a request that is not carried out; after a failed
   * answer in its group nothing; otherwise what is stored for its own answer.
   */
  lemma GroupedQueryNodeStoresAnswer(w: World, dp: seq<Node>, n: DSNode, queries: seq<DataQuery>)
    requires Arranged(dp) && n in dp && SharedContext(QueriesOf(dp))
    requires SentTogether(queries, GroupOf(QueriesOf(dp), KeyOf(n)))
    ensures
      var vars, q, group := GroupedRun(w, dp).vars, n.body, GroupOf(QueriesOf(dp), KeyOf(n));
      && group != []
      && match w.pluginContext(q.datasource.dsType, q.request.user, q.datasource)
         case Err(_) => n.refID in vars && vars[n.refID] == Results([], Some(DataSourceNotFound))
         case Ok(context) =>
           match w.refusal(context, q.request.headers, queries)
           case Some(e) =>
             n.refID in vars && vars[n.refID] == Results([], Some(QueryError(group[0].refID, group[0].body.datasource.uid, e)))
           case None =>
             if AfterFailure(w, QueriesOf(dp), n, context) then n.refID !in vars
             else n.refID in vars && StoredFor(w, n, w.answer(context, q.request.headers, Sent(n)), vars[n.refID])
  {
    var group := GroupOf(QueriesOf(dp), KeyOf(n));
    assert queries == Batch(group);
    NodeOf(dp, n);
    QueriesDistinct(dp);
    GroupedRunSettled(w, dp, n.refID);
    if Context(w, n).Err? || Refused(w, n, queries) {
      RefusedEntry(w, QueriesOf(dp), n);
    } else {
      ServedInGroup(w, QueriesOf(dp), n);
      assert n in group;
    }
  }
}
