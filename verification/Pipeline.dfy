/**
 * Executing a pipeline over the shared variable map (pkg/expr/graph.go, pkg/expr/nodes.go), and
 * the recursive meaning of a request that every execution order computes.
 */
module Pipeline {
  import opened Basics
  import opened MathExp
  import opened Fingerprints
  import opened Hysteresis
  import opened Nodes

  /** One query as it is sent to a data source. */
  datatype DataQuery = DataQuery(refID: string, payload: nat)

  /** What the response to a batch says about one of its queries. */
  datatype Answer = Absent | Failed(cause: Error) | Frames(frames: seq<nat>)

  /**
   * Everything outside the engine. A data source refuses a whole request, which may depend on the
   * batch of queries sent, or answers each query of it, whatever else is in the batch. An
   * expression command sees the variables it needs and no others.
   */
  datatype World = World(
    fingerprint: Labels -> Fingerprint,
    command: (Command, Vars) -> Outcome,
    machineLearning: nat -> Outcome,
    pluginContext: (string, string, DataSource) -> Result<nat, Error>,
    refusal: (nat, map<string, string>, seq<DataQuery>) -> Option<Error>,
    answer: (nat, map<string, string>, DataQuery) -> Answer,
    convert: (seq<nat>, string) -> Outcome)

  // ---------------------------------------------------------------- executing one node

  /** The answers to one request, per reference id, or the error of the whole request. */
  function QueryData(w: World, context: nat, headers: map<string, string>, queries: seq<DataQuery>): (r: Result<map<string, Answer>, Error>)
    ensures r.Err? <==> w.refusal(context, headers, queries).Some?
    ensures r.Err? ==> r.error == w.refusal(context, headers, queries).value
  {
    match w.refusal(context, headers, queries)
    case Some(e) => Err(e)
    case None => Ok(Answers(w, context, headers, queries))
  }

  function Answers(w: World, context: nat, headers: map<string, string>, queries: seq<DataQuery>): map<string, Answer> {
    if queries == [] then map[]
    else
      var rest := Answers(w, context, headers, queries[..|queries| - 1]);
      var q := queries[|queries| - 1];
      var a := w.answer(context, headers, q);
      if a.Absent? then rest else rest[q.refID := a]
  }

  /** A missing response is treated as a response without frames. */
  function GetResponseFrame(answers: map<string, Answer>, refID: string): Result<seq<nat>, Error> {
    if refID !in answers then Ok([])
    else
      match answers[refID]
      case Failed(e) => Err(e)
      case Frames(fs) => Ok(fs)
      case Absent => Ok([])
  }

  function ConvertFrames(w: World, frames: seq<nat>, dsType: string): Outcome {
    if frames == [] then Outcome(Results([NoData], None), None) else w.convert(frames, dsType)
  }

  function ToDataQuery(node: Node): DataQuery
    requires node.body.DataSourceQuery?
  {
    DataQuery(node.refID, node.body.payload)
  }

  /** DSNode.Execute: a request for this one query. */
  function QueryOutcome(w: World, node: Node): Outcome
    requires node.body.DataSourceQuery?
  {
    var q := node.body;
    match w.pluginContext(q.datasource.dsType, q.request.user, q.datasource)
    case Err(e) => Outcome(NoResults, Some(e))
    case Ok(context) =>
      match QueryData(w, context, q.request.headers, [ToDataQuery(node)])
      case Err(e) => Outcome(NoResults, Some(QueryError(node.refID, q.datasource.uid, e)))
      case Ok(answers) =>
        match GetResponseFrame(answers, node.refID)
        case Err(e) => Outcome(NoResults, Some(QueryError(node.refID, q.datasource.uid, e)))
        case Ok(frames) =>
          var o := ConvertFrames(w, frames, q.datasource.dsType);
          match o.error
          case Some(e) => Outcome(o.results, Some(ConversionError(node.refID, e)))
          case None => o
  }

  /** The variables a command sees. */
  function Visible(vars: Vars, names: seq<string>): Vars {
    map v | v in vars && v in names :: vars[v]
  }

  function CommandOutcome(w: World, command: Command, vars: Vars): Outcome
    requires command.Valid()
  {
    match command
    case PlainThreshold(tc) => ThresholdOutcome(tc, vars)
    case HysteresisThreshold(h) => Meaning(h, vars, w.fingerprint)
    case _ => w.command(command, Visible(vars, command.NeedsVars()))
  }

  function NodeOutcome(w: World, node: Node, vars: Vars): Outcome
    requires node.Executable() && node.Valid()
  {
    match node.body
    case DataSourceQuery(_, _, _, _) => QueryOutcome(w, node)
    case Expression(command) => CommandOutcome(w, command, vars)
    case MachineLearning(call) => w.machineLearning(call)
  }

  /** Runs a node on the live variable map; hysteresis commands write to it while they run. */
  method ExecuteNode(w: World, node: Node, store: VarStore) returns (o: Outcome)
    requires node.Executable() && node.Valid()
    modifies store
    ensures store.vars == old(store.vars)
    ensures o == NodeOutcome(w, node, old(store.vars))
  {
    match node.body
    case DataSourceQuery(_, _, _, _) => o := QueryOutcome(w, node);
    case MachineLearning(call) => o := w.machineLearning(call);
    case Expression(command) =>
      match command {
        case HysteresisThreshold(h) => o := Execute(h, store, w.fingerprint);
        case _ => o := CommandOutcome(w, command, store.vars);
      }
  }

  // ---------------------------------------------------------------- executing a pipeline

  /** The first needed variable whose stored results carry an error. */
  function FirstFailed(names: seq<string>, vars: Vars): Option<string> {
    if names == [] then None
    else if names[0] in vars && vars[names[0]].error.Some? then Some(names[0])
    else FirstFailed(names[1..], vars)
  }

  /** What is stored for an executed node: its results, with the returned error if there is one. */
  function Recorded(o: Outcome): Results {
    if o.error.Some? then o.results.(error := o.error) else o.results
  }

  /** What is stored for a node, given the variables. */
  function StepResult(w: World, node: Node, vars: Vars): Results
    requires node.Executable() && node.Valid()
  {
    match FirstFailed(node.NeedsVars(), vars)
    case Some(v) => Results([], Some(DependencyError(node.refID, v)))
    case None => Recorded(NodeOutcome(w, node, vars))
  }

  datatype RunResult = RunResult(vars: Vars, error: Option<Error>)

  /** The run over the nodes dp, from the variables vars; skipQueries leaves out data source nodes. */
  function Run(w: World, skipQueries: bool, dp: seq<Node>, vars: Vars): RunResult
    requires forall n :: n in dp ==> n.Valid()
  {
    if dp == [] then RunResult(vars, None)
    else
      var node := dp[0];
      if skipQueries && node.body.DataSourceQuery? then Run(w, skipQueries, dp[1..], vars)
      else if FirstFailed(node.NeedsVars(), vars).None? && !node.Executable() then
        RunResult(vars, Some(UnexpectedNodeType(node.refID)))
      else
        var res :=
          match FirstFailed(node.NeedsVars(), vars)
          case Some(v) => Results([], Some(DependencyError(node.refID, v)))
          case None => Recorded(NodeOutcome(w, node, vars));
        Run(w, skipQueries, dp[1..], vars[node.refID := res])
  }

  /** The main loop of DataPipeline.execute. */
  method ExecuteNodes(w: World, skipQueries: bool, dp: seq<Node>, store: VarStore) returns (err: Option<Error>)
    requires forall n :: n in dp ==> n.Valid()
    modifies store
    ensures RunResult(store.vars, err) == Run(w, skipQueries, dp, old(store.vars))
  {
    for i := 0 to |dp|
      invariant Run(w, skipQueries, dp, old(store.vars)) == Run(w, skipQueries, dp[i..], store.vars)
    {
      var node := dp[i];
      assert dp[i..][1..] == dp[i + 1..];
      if skipQueries && node.body.DataSourceQuery? {
        continue;
      }
      var hasDepError := false;
      var names := node.NeedsVars();
      ghost var before := store.vars;
      for k := 0 to |names|
        invariant store.vars == before && !hasDepError
        invariant FirstFailed(names, before) == FirstFailed(names[k..], before)
      {
        assert names[k..][1..] == names[k + 1..];
        if names[k] in store.vars && store.vars[names[k]].error.Some? {
          store.vars := store.vars[node.refID := Results([], Some(DependencyError(node.refID, names[k])))];
          hasDepError := true;
          break;
        }
      }
      if hasDepError {
        continue;
      }
      if !node.Executable() {
        return Some(UnexpectedNodeType(node.refID));
      }
      var o := ExecuteNode(w, node, store);
      var res := o.results;
      if o.error.Some? {
        res := res.(error := o.error);
      }
      store.vars := store.vars[node.refID := res];
    }
    err := None;
  }

  // ---------------------------------------------------------------- the recursive meaning

  /** rank decreases from every node of the request to its inputs: the references are acyclic. */
  ghost predicate Ranked(nodes: map<string, Node>, rank: map<string, nat>) {
    && (forall r :: r in nodes ==> nodes[r].refID == r && nodes[r].Executable() && nodes[r].Valid())
    && (forall r :: r in nodes ==> r in rank)
    && (forall r, v :: r in nodes && v in nodes && v in nodes[r].NeedsVars() ==> rank[v] < rank[r])
  }

  /** The results of a node: computed from the results of its inputs, and from nothing else. */
  ghost function Eval(w: World, nodes: map<string, Node>, rank: map<string, nat>, r: string): Results
    requires Ranked(nodes, rank) && r in nodes
    decreases rank[r]
  {
    StepResult(w, nodes[r], map v | v in nodes && v in nodes[r].NeedsVars() :: Eval(w, nodes, rank, v))
  }

  ghost function EvalAll(w: World, nodes: map<string, Node>, rank: map<string, nat>, domain: set<string>): Vars
    requires Ranked(nodes, rank) && domain <= nodes.Keys
  {
    map r | r in domain :: Eval(w, nodes, rank, r)
  }

  /** Two variable maps agree on the given names. */
  ghost predicate AgreeOn(names: seq<string>, a: Vars, b: Vars) {
    forall v :: v in names ==> (v in a <==> v in b) && (v in a ==> a[v] == b[v])
  }

  lemma {:induction false} FirstFailedReads(names: seq<string>, a: Vars, b: Vars)
    requires AgreeOn(names, a, b)
    ensures FirstFailed(names, a) == FirstFailed(names, b)
  {
    if names != [] {
      assert names[0] in names;
      assert forall v :: v in names[1..] ==> v in names;
      FirstFailedReads(names[1..], a, b);
    }
  }

  /** A node reads nothing but its needed variables. */
  lemma StepReadsNeeded(w: World, node: Node, a: Vars, b: Vars)
    requires node.Executable() && node.Valid() && AgreeOn(node.NeedsVars(), a, b)
    ensures StepResult(w, node, a) == StepResult(w, node, b)
  {
    FirstFailedReads(node.NeedsVars(), a, b);
    if node.body.Expression? {
      match node.body.command
      case PlainThreshold(tc) =>
        assert tc.referenceVar in node.NeedsVars();
        ThresholdReadsOnlyReference(tc, a, b);
      case HysteresisThreshold(h) =>
        assert h.referenceVar in node.NeedsVars();
        ReadsOnlyReference(h, a, b, w.fingerprint);
      case command =>
        assert Visible(a, command.NeedsVars()) == Visible(b, command.NeedsVars());
    }
  }

  /** The meaning of a node does not depend on the ranking that shows acyclicity. */
  lemma {:induction false} EvalIgnoresRank(w: World, nodes: map<string, Node>, rank: map<string, nat>, rank': map<string, nat>, r: string)
    requires Ranked(nodes, rank) && Ranked(nodes, rank') && r in nodes
    ensures Eval(w, nodes, rank, r) == Eval(w, nodes, rank', r)
    decreases rank[r]
  {
    forall v | v in nodes && v in nodes[r].NeedsVars() ensures Eval(w, nodes, rank, v) == Eval(w, nodes, rank', v) {
      EvalIgnoresRank(w, nodes, rank, rank', v);
    }
    assert (map v | v in nodes && v in nodes[r].NeedsVars() :: Eval(w, nodes, rank, v)) ==
           (map v | v in nodes && v in nodes[r].NeedsVars() :: Eval(w, nodes, rank', v));
  }

  /** The arrangement dp of nodes can be executed: all are executable, and inputs come first. */
  ghost predicate Arranged(dp: seq<Node>) {
    && DistinctRefIDs(dp) && InputsFirst(dp)
    && forall n :: n in dp ==> n.Executable() && n.Valid()
  }

  lemma EvalUnfolds(w: World, nodes: map<string, Node>, rank: map<string, nat>, node: Node, vars: Vars)
    requires Ranked(nodes, rank) && node in nodes.Values
    requires forall v :: v in node.NeedsVars() && v in nodes ==> v in vars && vars[v] == Eval(w, nodes, rank, v)
    requires forall v :: v in node.NeedsVars() && v !in nodes ==> v !in vars
    ensures StepResult(w, node, vars) == Eval(w, nodes, rank, node.refID)
  {
    var inputs := map v | v in nodes && v in node.NeedsVars() :: Eval(w, nodes, rank, v);
    StepReadsNeeded(w, node, vars, inputs);
  }

  /** The variables after the first k nodes of an arrangement. */
  ghost function After(w: World, dp: seq<Node>, rank: map<string, nat>, k: nat): Vars
    requires Ranked(ByRef(dp), rank) && k <= |dp|
  {
    PrefixRefs(dp, k);
    EvalAll(w, ByRef(dp), rank, ByRef(dp[..k]).Keys)
  }

  lemma AfterNext(w: World, dp: seq<Node>, rank: map<string, nat>, k: nat)
    requires DistinctRefIDs(dp) && Ranked(ByRef(dp), rank) && k < |dp|
    ensures dp[k].refID in ByRef(dp) && ByRef(dp)[dp[k].refID] == dp[k]
    ensures After(w, dp, rank, k + 1) == After(w, dp, rank, k)[dp[k].refID := Eval(w, ByRef(dp), rank, dp[k].refID)]
  {
    PrefixRefs(dp, k);
    PrefixRefs(dp, k + 1);
    ByRefOfDistinct(dp, k);
    PrefixNext(dp, k);
    EvalAllNext(w, ByRef(dp), rank, ByRef(dp[..k]).Keys, dp[k].refID);
  }

  lemma PrefixNext(dp: seq<Node>, k: nat)
    requires k < |dp|
    ensures ByRef(dp[..k + 1]).Keys == ByRef(dp[..k]).Keys + {dp[k].refID}
  {
  }

  lemma EvalAllNext(w: World, nodes: map<string, Node>, rank: map<string, nat>, domain: set<string>, r: string)
    requires Ranked(nodes, rank) && domain <= nodes.Keys && r in nodes
    ensures EvalAll(w, nodes, rank, domain + {r}) == EvalAll(w, nodes, rank, domain)[r := Eval(w, nodes, rank, r)]
  {
  }

  lemma AfterInputs(w: World, dp: seq<Node>, rank: map<string, nat>, k: nat)
    requires InputsFirst(dp) && Ranked(ByRef(dp), rank) && k < |dp|
    ensures
      var vars := After(w, dp, rank, k);
      forall v :: v in dp[k].NeedsVars() ==>
        if v in ByRef(dp) then v in vars && vars[v] == Eval(w, ByRef(dp), rank, v) else v !in vars
  {
  }

  lemma RunStep(w: World, dp: seq<Node>, rank: map<string, nat>, k: nat)
    requires Arranged(dp) && Ranked(ByRef(dp), rank) && k < |dp|
    ensures dp[k].Executable() && dp[k].Valid()
    ensures After(w, dp, rank, k + 1) ==
            After(w, dp, rank, k)[dp[k].refID := StepResult(w, dp[k], After(w, dp, rank, k))]
  {
    assert dp[k] in dp;
    AfterNext(w, dp, rank, k);
    AfterInputs(w, dp, rank, k);
    assert dp[k] in ByRef(dp).Values;
    EvalUnfolds(w, ByRef(dp), rank, dp[k], After(w, dp, rank, k));
  }

  lemma {:induction false} RunFrom(w: World, dp: seq<Node>, rank: map<string, nat>, k: nat)
    requires Arranged(dp) && Ranked(ByRef(dp), rank) && k <= |dp|
    ensures Run(w, false, dp[k..], After(w, dp, rank, k)) == RunResult(After(w, dp, rank, |dp|), None)
    decreases |dp| - k
  {
    if k < |dp| {
      RunStep(w, dp, rank, k);
      RunFrom(w, dp, rank, k + 1);
      assert dp[k..][0] == dp[k] && dp[k..][1..] == dp[k + 1..];
    }
  }

  lemma PrefixRefs(dp: seq<Node>, k: nat)
    requires k <= |dp|
    ensures ByRef(dp[..k]).Keys <= ByRef(dp).Keys
  {
  }

  /**
   * Refinement: running any arrangement stores, for each node, exactly its recursive meaning,
   * and the run reports no error.
   */
  lemma RunIsEval(w: World, dp: seq<Node>, rank: map<string, nat>)
    requires Arranged(dp) && Ranked(ByRef(dp), rank)
    ensures Run(w, false, dp, map[]) == RunResult(EvalAll(w, ByRef(dp), rank, ByRef(dp).Keys), None)
  {
    RunFrom(w, dp, rank, 0);
    assert dp[0..] == dp && dp[..0] == [] && dp[..|dp|] == dp;
    assert After(w, dp, rank, 0) == map[];
  }

  /** The positions of an arrangement rank its nodes. */
  ghost function Positions(dp: seq<Node>): (rank: map<string, nat>)
    ensures forall r :: r in rank <==> r in ByRef(dp)
    ensures forall r :: r in rank ==> rank[r] < |dp|
  {
    if dp == [] then map[] else Positions(dp[..|dp| - 1])[dp[|dp| - 1].refID := |dp| - 1]
  }

  lemma {:induction false} PositionOf(dp: seq<Node>, i: nat)
    requires DistinctRefIDs(dp) && i < |dp|
    ensures dp[i].refID in Positions(dp) && Positions(dp)[dp[i].refID] == i
  {
    if i < |dp| - 1 {
      PositionOf(dp[..|dp| - 1], i);
    }
  }

  /** An arrangement is itself the witness that its references are acyclic. */
  lemma PositionsRank(dp: seq<Node>)
    requires Arranged(dp)
    ensures Ranked(ByRef(dp), Positions(dp))
  {
    var nodes, rank := ByRef(dp), Positions(dp);
    forall r, v | r in nodes && v in nodes && v in nodes[r].NeedsVars() ensures rank[v] < rank[r] {
      var k :| 0 <= k < |dp| && dp[k] == nodes[r];
      PositionOf(dp, k);
      assert v in ByRef(dp[..k]);
      var n := ByRef(dp[..k])[v];
      var j :| 0 <= j < |dp[..k]| && dp[..k][j] == n;
      PositionOf(dp, j);
    }
  }

  /** Confluence: any two arrangements of the same nodes leave the same variables. */
  lemma RunsAgree(w: World, dp: seq<Node>, dp': seq<Node>)
    requires Arranged(dp) && Arranged(dp') && forall n :: n in dp <==> n in dp'
    ensures Run(w, false, dp, map[]) == Run(w, false, dp', map[])
    ensures Run(w, false, dp, map[]).error == None
  {
    ByRefOfSame(dp, dp');
    PositionsRank(dp);
    RunIsEval(w, dp, Positions(dp));
    RunIsEval(w, dp', Positions(dp));
  }

  // ---------------------------------------------------------------- failures

  /** The nodes a node depends on, through any number of references. */
  ghost function Ancestors(nodes: map<string, Node>, rank: map<string, nat>, r: string): set<string>
    requires Ranked(nodes, rank) && r in nodes
    decreases rank[r]
  {
    set v, a | v in nodes.Keys && v in nodes[r].NeedsVars() && a in (Ancestors(nodes, rank, v) + {v}) :: a
  }

  /** Some input of these names carries an error. */
  ghost predicate InputFailed(names: seq<string>, vars: Vars) {
    exists v :: v in names && v in vars && vars[v].error.Some?
  }

  /** The input at position k carries an error, and none before it does. */
  ghost predicate FailsFirst(names: seq<string>, vars: Vars, k: nat) {
    && k < |names| && names[k] in vars && vars[names[k]].error.Some?
    && forall j :: 0 <= j < k && names[j] in vars ==> vars[names[j]].error.None?
  }

  /** On the variables of a finished run node r was executed, and returned an error or results that carry one. */
  ghost predicate ExecutedAndFailed(w: World, nodes: map<string, Node>, vars: Vars, r: string)
    requires r in nodes && nodes[r].Executable() && nodes[r].Valid()
  {
    var o := NodeOutcome(w, nodes[r], vars);
    !InputFailed(nodes[r].NeedsVars(), vars) && (o.error.Some? || o.results.error.Some?)
  }

  /** Some node of the given names was executed and failed. */
  ghost predicate FailedAmong(w: World, nodes: map<string, Node>, vars: Vars, names: set<string>)
    requires forall r :: r in nodes ==> nodes[r].Executable() && nodes[r].Valid()
  {
    exists a :: a in nodes && a in names && ExecutedAndFailed(w, nodes, vars, a)
  }

  /** The results are the dependency error of r for its first failed input, and nothing else. */
  ghost predicate IsDependencyError(res: Results, r: string, names: seq<string>, vars: Vars) {
    exists k: nat :: FailsFirst(names, vars, k) && res == Results([], Some(DependencyError(r, names[k])))
  }

  /** The results hold what was returned, with the returned error if there is one. */
  ghost predicate Holds(res: Results, o: Outcome) {
    res.values == o.results.values && res.error == if o.error.Some? then o.error else o.results.error
  }

  /** A finished run is consistent: each entry is what its node yields on the final variables. */
  ghost predicate Consistent(w: World, nodes: map<string, Node>, vars: Vars)
    requires forall r :: r in nodes ==> nodes[r].Executable() && nodes[r].Valid()
  {
    vars.Keys == nodes.Keys && forall r :: r in nodes ==> vars[r] == StepResult(w, nodes[r], vars)
  }

  lemma EvalAllConsistent(w: World, nodes: map<string, Node>, rank: map<string, nat>)
    requires Ranked(nodes, rank)
    ensures Consistent(w, nodes, EvalAll(w, nodes, rank, nodes.Keys))
  {
    var vars := EvalAll(w, nodes, rank, nodes.Keys);
    forall r | r in nodes ensures vars[r] == StepResult(w, nodes[r], vars) {
      assert nodes[r] in nodes.Values;
      EvalUnfolds(w, nodes, rank, nodes[r], vars);
    }
  }

  lemma {:induction false} FirstFailedMeaning(names: seq<string>, vars: Vars)
    ensures FirstFailed(names, vars).Some? <==> InputFailed(names, vars)
    ensures FirstFailed(names, vars).Some? ==> exists k: nat :: FailsFirst(names, vars, k) && names[k] == FirstFailed(names, vars).value
  {
    if names != [] {
      FirstFailedMeaning(names[1..], vars);
      assert forall v :: v in names <==> v == names[0] || v in names[1..];
      if names[0] in vars && vars[names[0]].error.Some? {
        assert FailsFirst(names, vars, 0);
      } else if FirstFailed(names, vars).Some? {
        var k: nat :| FailsFirst(names[1..], vars, k) && names[1..][k] == FirstFailed(names, vars).value;
        assert FailsFirst(names, vars, k + 1);
      }
    }
  }

  /** What a node leaves on the variables it finds, in terms of its outcome. */
  lemma StepMeaning(w: World, node: Node, vars: Vars)
    requires node.Executable() && node.Valid()
    ensures InputFailed(node.NeedsVars(), vars) ==> IsDependencyError(StepResult(w, node, vars), node.refID, node.NeedsVars(), vars)
    ensures !InputFailed(node.NeedsVars(), vars) ==> Holds(StepResult(w, node, vars), NodeOutcome(w, node, vars))
  {
    FirstFailedMeaning(node.NeedsVars(), vars);
  }

  /** An entry carries an error exactly when its node, or a node it depends on, was executed and failed. */
  lemma {:induction false} ErrorHasOrigin(w: World, nodes: map<string, Node>, rank: map<string, nat>, vars: Vars, r: string)
    requires Ranked(nodes, rank) && Consistent(w, nodes, vars) && r in nodes
    ensures vars[r].error.Some? <==>
      FailedAmong(w, nodes, vars, Ancestors(nodes, rank, r) + {r})
    decreases rank[r]
  {
    var names := nodes[r].NeedsVars();
    StepMeaning(w, nodes[r], vars);
    forall v | v in nodes && v in names
      ensures vars[v].error.Some? <==>
        FailedAmong(w, nodes, vars, Ancestors(nodes, rank, v) + {v})
    {
      ErrorHasOrigin(w, nodes, rank, vars, v);
    }
    if InputFailed(names, vars) {
      var v :| v in names && v in vars && vars[v].error.Some?;
      var a :| a in nodes && a in Ancestors(nodes, rank, v) + {v} && ExecutedAndFailed(w, nodes, vars, a);
      assert a in Ancestors(nodes, rank, r);
    }
  }

  /**
   * Failure propagation over a whole run. An entry carries an error if and only if its node or
   * one of its transitive inputs was executed and failed; with a failed direct input it is the
   * dependency error of the first such input and nothing else; every other node was executed on
   * the final variables of its inputs, and its entry holds what it returned.
   */
  lemma FailurePropagation(w: World, dp: seq<Node>, r: string)
    requires Arranged(dp) && r in ByRef(dp)
    ensures Ranked(ByRef(dp), Positions(dp))
    ensures
      var vars, nodes := Run(w, false, dp, map[]).vars, ByRef(dp);
      var names := nodes[r].NeedsVars();
      && vars.Keys == nodes.Keys
      && (vars[r].error.Some? <==>
          FailedAmong(w, nodes, vars, Ancestors(nodes, Positions(dp), r) + {r}))
      && (InputFailed(names, vars) ==> IsDependencyError(vars[r], r, names, vars))
      && (!InputFailed(names, vars) ==> Holds(vars[r], NodeOutcome(w, nodes[r], vars)))
      && (InputFailed(names, vars) <==>
          FailedAmong(w, nodes, vars, Ancestors(nodes, Positions(dp), r)))
  {
    PositionsRank(dp);
    var nodes, rank := ByRef(dp), Positions(dp);
    RunIsEval(w, dp, rank);
    EvalAllConsistent(w, nodes, rank);
    var vars := Run(w, false, dp, map[]).vars;
    ErrorHasOrigin(w, nodes, rank, vars, r);
    StepMeaning(w, nodes[r], vars);
    FailedInputsHaveFailedAncestors(w, nodes, rank, vars, r);
  }

  /** A direct input carries an error exactly when some node r depends on was executed and failed. */
  lemma FailedInputsHaveFailedAncestors(w: World, nodes: map<string, Node>, rank: map<string, nat>, vars: Vars, r: string)
    requires Ranked(nodes, rank) && Consistent(w, nodes, vars) && r in nodes
    ensures InputFailed(nodes[r].NeedsVars(), vars) <==>
      FailedAmong(w, nodes, vars, Ancestors(nodes, rank, r))
  {
    var names := nodes[r].NeedsVars();
    if v :| v in names && v in vars && vars[v].error.Some? {
      ErrorHasOrigin(w, nodes, rank, vars, v);
      var a :| a in nodes && a in Ancestors(nodes, rank, v) + {v} && ExecutedAndFailed(w, nodes, vars, a);
      assert a in Ancestors(nodes, rank, r);
    }
    if a :| a in nodes && a in Ancestors(nodes, rank, r) && ExecutedAndFailed(w, nodes, vars, a) {
      var v :| v in nodes.Keys && v in names && a in Ancestors(nodes, rank, v) + {v};
      ErrorHasOrigin(w, nodes, rank, vars, v);
    }
  }
}
