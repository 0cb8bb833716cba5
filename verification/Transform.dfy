/** Answering a request from end to end (pkg/expr/transform.go, pkg/expr/service.go). */
module Transform {
  import opened Basics
  import opened MathExp
  import opened Nodes
  import opened Graph
  import opened Pipeline
  import opened Grouped
  import opened GroupedRefinement
  import TopoSort

  datatype TransformError =
    | ExpressionsDisabled
    | BuildFailed(build: BuildError)
    | ExecutionFailed(execution: Error)
    | BadHideProperty(cause: Error)

  datatype Options = Options(enabled: bool, mlExpressions: bool, groupByDatasource: bool)

  ghost function Hidden(queries: seq<Query>): set<string> {
    set q | q in queries && q.hide == Ok(true) :: q.refID
  }

  method HiddenRefIDs(queries: seq<Query>) returns (r: Result<set<string>, Error>)
    ensures r.Ok? <==> forall q :: q in queries ==> q.hide.Ok?
    ensures r.Ok? ==> forall name :: name in r.value <==> exists q :: q in queries && q.refID == name && q.hide == Ok(true)
    ensures r.Ok? ==> r.value == Hidden(queries)
  {
    var hidden: set<string> := {};
    for i := 0 to |queries|
      invariant hidden == Hidden(queries[..i])
      invariant forall q :: q in queries[..i] ==> q.hide.Ok?
    {
      assert queries[i] in queries && queries[..i + 1] == queries[..i] + [queries[i]];
      if queries[i].hide.Err? {
        return Err(queries[i].hide.error);
      }
      if queries[i].hide.value {
        hidden := hidden + {queries[i].refID};
      }
    }
    assert queries[..|queries|] == queries;
    return Ok(hidden);
  }

  lemma PipelineArranged(ns: seq<Node>, p: seq<Node>)
    requires IsPipelineOf(ns, p) && DistinctRefIDs(ns) && forall n :: n in ns ==> n.Executable() && n.Valid()
    ensures Arranged(p) && Closed(p) && ByRef(p) == ByRef(ns)
  {
  }

  lemma RequestPipeline(queries: seq<Query>, mlExpressions: bool, p: seq<Node>)
    requires UniqueRefIDs(queries) && NoQueryFault(queries, mlExpressions) && AllDecoded(queries)
    requires IsPipelineOf(NodesOf(queries), p)
    ensures Arranged(p) && Closed(p) && ByRef(p) == ByRef(NodesOf(queries))
    ensures Ranked(ByRef(NodesOf(queries)), Positions(p)) && DistinctRefIDs(NodesOf(queries))
  {
    RequestNodes(queries, mlExpressions);
    PipelineArranged(NodesOf(queries), p);
    PositionsRank(p);
  }

  /** An acceptable request has references that strictly decrease some rank. */
  lemma AcceptableIsRanked(queries: seq<Query>, mlExpressions: bool)
    requires UniqueRefIDs(queries) && Acceptable(queries, mlExpressions) && AllDecoded(queries)
    ensures exists rank :: Ranked(ByRef(NodesOf(queries)), rank)
  {
    RequestNodes(queries, mlExpressions);
    SortedPipeline(NodesOf(queries));
    var p := Arrange(IndexNodes(NodesOf(queries)), TopoSort.SortStabilized(|queries|, References(NodesOf(queries))).value);
    RequestPipeline(queries, mlExpressions, p);
  }

  /** The response to a request in per-node mode: the meaning of every node that is not hidden. */
  ghost predicate Answers(w: World, queries: seq<Query>, response: Vars)
    requires AllRead(queries)
  {
    var nodes := ByRef(NodesOf(queries));
    forall rank :: Ranked(nodes, rank) ==> response == EvalAll(w, nodes, rank, nodes.Keys - Hidden(queries))
  }

  /** The response in grouped mode: what the grouped run of any pipeline of the request leaves, hidden nodes left out. */
  ghost predicate GroupedAnswers(w: World, queries: seq<Query>, response: Vars)
    requires AllRead(queries)
  {
    && (exists p :: IsPipelineOf(NodesOf(queries), p) && Arranged(p))
    && forall p :: IsPipelineOf(NodesOf(queries), p) && Arranged(p) ==> response == GroupedRun(w, p).vars - Hidden(queries)
  }

  /** Two pipelines of one request leave the same results in either mode. */
  lemma PipelinesAgree(w: World, ns: seq<Node>, p: seq<Node>, p': seq<Node>)
    requires DistinctRefIDs(ns) && IsPipelineOf(ns, p) && Arranged(p) && IsPipelineOf(ns, p') && Arranged(p')
    ensures Run(w, false, p, map[]) == Run(w, false, p', map[])
    ensures GroupedRun(w, p) == GroupedRun(w, p')
  {
    RunsAgree(w, p, p');
    ByRefOfSame(p, p');
    PipelineQueries(ns, p);
    PipelineQueries(ns, p');
    GroupedRunsAgree(w, p, p');
  }

  lemma GroupedMeaning(w: World, queries: seq<Query>, p: seq<Node>)
    requires AllRead(queries) && DistinctRefIDs(NodesOf(queries)) && IsPipelineOf(NodesOf(queries), p) && Arranged(p)
    ensures GroupedAnswers(w, queries, GroupedRun(w, p).vars - Hidden(queries))
  {
    forall p' | IsPipelineOf(NodesOf(queries), p') && Arranged(p') ensures GroupedRun(w, p') == GroupedRun(w, p) {
      PipelinesAgree(w, NodesOf(queries), p, p');
    }
  }

  /** Executing a pipeline of the request: no such execution fails as a whole. */
  method ExecuteRequest(w: World, groupByDatasource: bool, ghost queries: seq<Query>, p: seq<Node>) returns (r: Result<Vars, TransformError>)
    requires AllRead(queries) && DistinctRefIDs(NodesOf(queries))
    requires IsPipelineOf(NodesOf(queries), p) && Arranged(p) && ByRef(p) == ByRef(NodesOf(queries))
    ensures r.Ok?
    ensures if groupByDatasource then GroupedAnswers(w, queries, r.value - Hidden(queries)) else Answers(w, queries, r.value - Hidden(queries))
  {
    var vars, err := ExecutePipeline(w, groupByDatasource, p);
    r := if err.Some? then Err(ExecutionFailed(err.value)) else Ok(vars);
    if groupByDatasource {
      NoGroupedError(w, p);
      GroupedMeaning(w, queries, p);
    } else {
      PositionsRank(p);
      RunIsEval(w, p, Positions(p));
      VisibleMeaning(w, queries, p, vars);
    }
  }

  /** Building and executing. */
  method RunRequest(w: World, options: Options, queries: seq<Query>) returns (r: Result<Vars, TransformError>)
    requires UniqueRefIDs(queries) && AllDecoded(queries)
    ensures r.Ok? <==> Acceptable(queries, options.mlExpressions)
    ensures r.Ok? && !options.groupByDatasource ==> Answers(w, queries, r.value - Hidden(queries))
    ensures r.Ok? && options.groupByDatasource ==> GroupedAnswers(w, queries, r.value - Hidden(queries))
  {
    var pipeline := BuildPipeline(queries, options.mlExpressions);
    if pipeline.Err? {
      return Err(BuildFailed(pipeline.error));
    }
    RequestPipeline(queries, options.mlExpressions, pipeline.value);
    r := ExecuteRequest(w, options.groupByDatasource, queries, pipeline.value);
  }

  /**
   * TransformData. A response is given exactly for acceptable requests; in per-node mode it holds
   * the recursive meaning of each visible node, in grouped mode the grouped run of a pipeline.
   */
  method TransformData(w: World, options: Options, queries: seq<Query>) returns (r: Result<Vars, TransformError>)
    requires UniqueRefIDs(queries) && AllDecoded(queries)
    ensures r.Ok? <==>
      options.enabled && Acceptable(queries, options.mlExpressions) && forall q :: q in queries ==> q.hide.Ok?
    ensures r.Ok? && !options.groupByDatasource ==> Answers(w, queries, r.value)
    ensures r.Ok? && options.groupByDatasource ==> GroupedAnswers(w, queries, r.value)
  {
    if !options.enabled {
      return Err(ExpressionsDisabled);
    }
    var responses := RunRequest(w, options, queries);
    if responses.Err? {
      return responses;
    }
    var hidden := HiddenRefIDs(queries);
    if hidden.Err? {
      return Err(BadHideProperty(hidden.error));
    }
    var response := responses.value;
    if hidden.value != {} {
      response := response - hidden.value;
    }
    assert response == responses.value - Hidden(queries);
    return Ok(response);
  }

  lemma VisibleMeaning(w: World, queries: seq<Query>, p: seq<Node>, vars: Vars)
    requires AllRead(queries)
    requires Arranged(p) && ByRef(p) == ByRef(NodesOf(queries)) && RunResult(vars, None) == Run(w, false, p, map[])
    ensures Answers(w, queries, vars - Hidden(queries))
  {
    var nodes := ByRef(NodesOf(queries));
    forall rank | Ranked(nodes, rank)
      ensures vars - Hidden(queries) == EvalAll(w, nodes, rank, nodes.Keys - Hidden(queries))
    {
      RunIsEval(w, p, rank);
      EvalAllMinus(w, nodes, rank, Hidden(queries));
    }
  }

  lemma EvalAllMinus(w: World, nodes: map<string, Node>, rank: map<string, nat>, hidden: set<string>)
    requires Ranked(nodes, rank)
    ensures EvalAll(w, nodes, rank, nodes.Keys) - hidden == EvalAll(w, nodes, rank, nodes.Keys - hidden)
  {
  }

  /** The query of this name is one whose results are shown. */
  ghost predicate IsShown(queries: seq<Query>, name: string) {
    exists q :: q in queries && q.refID == name && q.hide != Ok(true)
  }

  lemma ShownOrHidden(queries: seq<Query>, name: string)
    requires UniqueRefIDs(queries) && AllRead(queries)
    ensures name in ByRef(NodesOf(queries)).Keys - Hidden(queries) <==> IsShown(queries, name)
  {
    var ns := NodesOf(queries);
    forall i | 0 <= i < |queries| ensures queries[i].refID in ByRef(ns) {
      NodeOfName(queries, i, queries[i].refID);
    }
    if name in ByRef(ns) {
      var i :| 0 <= i < |ns| && ns[i] == ByRef(ns)[name];
      assert queries[i] in queries && queries[i].refID == name;
    }
  }

  /** The response has exactly the results that a run of any pipeline of the request leaves for the shown queries. */
  lemma ResponseIsShownRun(w: World, queries: seq<Query>, mlExpressions: bool, p: seq<Node>, response: Vars)
    requires UniqueRefIDs(queries) && AllDecoded(queries) && Acceptable(queries, mlExpressions)
    requires IsPipelineOf(NodesOf(queries), p) && Answers(w, queries, response)
    ensures Arranged(p)
    ensures forall name :: name in response <==> IsShown(queries, name)
    ensures
      var vars := Run(w, false, p, map[]).vars;
      forall name :: name in response ==> name in vars && response[name] == vars[name]
  {
    RequestPipeline(queries, mlExpressions, p);
    RunIsEval(w, p, Positions(p));
    forall name ensures name in response <==> IsShown(queries, name) {
      ShownOrHidden(queries, name);
    }
  }

  /** In grouped mode the response has those results of the grouped run that were stored at all. */
  lemma GroupedResponseIsShownRun(w: World, queries: seq<Query>, mlExpressions: bool, p: seq<Node>, response: Vars)
    requires UniqueRefIDs(queries) && AllDecoded(queries) && Acceptable(queries, mlExpressions)
    requires IsPipelineOf(NodesOf(queries), p) && GroupedAnswers(w, queries, response)
    ensures Arranged(p)
    ensures
      var vars := GroupedRun(w, p).vars;
      && (forall name :: name in response <==> name in vars && forall q :: q in queries && q.refID == name ==> q.hide != Ok(true))
      && (forall name :: name in response ==> response[name] == vars[name])
  {
    RequestPipeline(queries, mlExpressions, p);
  }
}
