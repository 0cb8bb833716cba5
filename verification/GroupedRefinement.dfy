/**
 * Grouped execution against per-node execution. A query is skipped when an earlier query of its
 * group got a failed response; the two modes agree exactly outside what skipped queries reach.
 */
module GroupedRefinement {
  import opened Basics
  import opened MathExp
  import opened Hysteresis
  import opened Nodes
  import opened Pipeline
  import opened Graph
  import opened Grouped
  import Threshold

  /** The queries stem from one request, and a group key identifies its data source. */
  ghost predicate SharedContext(nodes: seq<DSNode>) {
    forall a, b :: a in nodes && b in nodes ==>
      a.body.request == b.body.request && (KeyOf(a) == KeyOf(b) ==> a.body.datasource == b.body.datasource)
  }

  function Context(w: World, n: DSNode): Result<nat, Error> {
    w.pluginContext(n.body.datasource.dsType, n.body.request.user, n.body.datasource)
  }

  /** The error by which the data source refuses a request for these queries, sent in the context of n. */
  function Refusal(w: World, n: DSNode, queries: seq<DataQuery>): Option<Error>
    requires Context(w, n).Ok?
  {
    w.refusal(Context(w, n).value, n.body.request.headers, queries)
  }

  predicate Refused(w: World, n: DSNode, queries: seq<DataQuery>)
    requires Context(w, n).Ok?
  {
    Refusal(w, n, queries).Some?
  }

  /** A request for this query alone is carried out. */
  predicate Accepted(w: World, n: DSNode) {
    Context(w, n).Ok? && !Refused(w, n, [ToDataQuery(n)])
  }

  /** The batch of a group is refused exactly when each of its queries alone is. */
  ghost predicate RefusedTogether(w: World, nodes: seq<DSNode>) {
    forall n: DSNode :: n in nodes && Context(w, n).Ok? ==>
      (Refused(w, n, Batch(GroupOf(nodes, KeyOf(n)))) <==> Refused(w, n, [ToDataQuery(n)]))
  }

  /** The same for one group. */
  ghost predicate BatchDecides(w: World, group: seq<DSNode>) {
    forall n: DSNode :: n in group && Context(w, n).Ok? ==> (Refused(w, n, Batch(group)) <==> Refused(w, n, [ToDataQuery(n)]))
  }

  function Asked(w: World, n: DSNode): Answer
    requires Context(w, n).Ok?
  {
    w.answer(Context(w, n).value, n.body.request.headers, ToDataQuery(n))
  }

  predicate ResponseFailed(w: World, n: DSNode) {
    Accepted(w, n) && Asked(w, n).Failed?
  }

  /** Some earlier query of the same group got a failed response. */
  ghost predicate Skipped(w: World, nodes: seq<DSNode>, n: DSNode) {
    exists a: DSNode :: KeyOf(a) == KeyOf(n) && Precedes(nodes, a, n) && ResponseFailed(w, a)
  }

  /** The results per-node mode stores for a query. */
  function Alone(w: World, n: DSNode): Results {
    Recorded(QueryOutcome(w, n))
  }

  function FramesIn(a: Answer): Result<seq<nat>, Error> {
    match a
    case Absent => Ok([])
    case Failed(e) => Err(e)
    case Frames(fs) => Ok(fs)
  }

  // ---------------------------------------------------------------- one group

  lemma AnswersNext(w: World, context: nat, headers: map<string, string>, group: seq<DSNode>)
    requires group != []
    ensures
      var rest, last := Answers(w, context, headers, Batch(group[..|group| - 1])), group[|group| - 1];
      var a := w.answer(context, headers, ToDataQuery(last));
      Answers(w, context, headers, Batch(group)) == if a.Absent? then rest else rest[last.refID := a]
  {
    assert Batch(group)[..|group| - 1] == Batch(group[..|group| - 1]);
  }

  lemma {:induction false} AnswersKeys(w: World, context: nat, headers: map<string, string>, group: seq<DSNode>, r: string)
    requires forall j :: 0 <= j < |group| ==> group[j].refID != r
    ensures r !in Answers(w, context, headers, Batch(group))
  {
    if group != [] {
      AnswersNext(w, context, headers, group);
      AnswersKeys(w, context, headers, group[..|group| - 1], r);
    }
  }

  /** A query gets the same response in the batch of its group as alone. */
  lemma {:induction false} AnswerInBatch(w: World, context: nat, headers: map<string, string>, group: seq<DSNode>, i: nat)
    requires DistinctRefIDs(group) && i < |group|
    ensures GetResponseFrame(Answers(w, context, headers, Batch(group)), group[i].refID) ==
            FramesIn(w.answer(context, headers, ToDataQuery(group[i])))
  {
    var front, last := group[..|group| - 1], group[|group| - 1];
    AnswersNext(w, context, headers, group);
    if i < |front| {
      AnswerInBatch(w, context, headers, front, i);
      assert front[i].refID != last.refID;
    } else {
      AnswersKeys(w, context, headers, front, last.refID);
    }
  }

  lemma DeliveredAlone(w: World, n: DSNode, answers: map<string, Answer>)
    requires Accepted(w, n) && GetResponseFrame(answers, n.refID) == FramesIn(Asked(w, n))
    ensures Delivered(w, answers, n) == Alone(w, n)
  {
    assert Batch([n]) == [ToDataQuery(n)];
    AnswerInBatch(w, Context(w, n).value, n.body.request.headers, [n], 0);
  }

  /** Some query before position i got a failed response. */
  ghost predicate FailedBefore(answers: map<string, Answer>, group: seq<DSNode>, i: nat)
    requires i <= |group|
  {
    exists j :: 0 <= j < i && GetResponseFrame(answers, group[j].refID).Err?
  }

  lemma FailedBeforeNext(answers: map<string, Answer>, group: seq<DSNode>, i: nat)
    requires 0 < i <= |group|
    ensures FailedBefore(answers, group, i) <==> GetResponseFrame(answers, group[0].refID).Err? || FailedBefore(answers, group[1..], i - 1)
  {
    if j :| 0 <= j < i && GetResponseFrame(answers, group[j].refID).Err? && j > 0 {
      assert group[1..][j - 1] == group[j];
    }
  }

  lemma {:induction false} DeliverAt(w: World, answers: map<string, Answer>, group: seq<DSNode>, i: nat)
    requires DistinctRefIDs(group) && i < |group|
    ensures
      if FailedBefore(answers, group, i)
      then group[i].refID !in Deliver(w, answers, group)
      else group[i].refID in Deliver(w, answers, group) &&
           Deliver(w, answers, group)[group[i].refID] == Delivered(w, answers, group[i])
  {
    var tail := group[1..];
    if i == 0 {
      DeliverSkipsHead(w, answers, group, 0);
      assert group[0 + 1..] == tail;
    } else {
      assert group[0].refID != group[i].refID;
      assert tail[i - 1] == group[i];
      FailedBeforeNext(answers, group, i);
      DeliverAt(w, answers, tail, i - 1);
    }
  }

  /** A group whose request is not carried out stores an error for each of its queries. */
  lemma RefusedGroup(w: World, group: seq<DSNode>, n: DSNode)
    requires SharedContext(group) && BatchDecides(w, group)
    requires n in group && (forall a :: a in group ==> KeyOf(a) == KeyOf(n)) && !Accepted(w, n)
    ensures n.refID in GroupEntries(w, group) && GroupEntries(w, group)[n.refID].error.Some?
    ensures Alone(w, n).error.Some?
    ensures n == group[0] && Context(w, n).Ok? && Refusal(w, n, Batch(group)) == Refusal(w, n, [ToDataQuery(n)]) ==>
      GroupEntries(w, group)[n.refID] == Alone(w, n)
  {
    var first := group[0];
    assert first in group;
    FailAllMeaning(group, DataSourceNotFound);
    if Context(w, n).Ok? {
      var e := w.refusal(Context(w, n).value, n.body.request.headers, Batch(group)).value;
      FailAllMeaning(group, QueryError(first.refID, first.body.datasource.uid, e));
    }
  }

  /** In an accepted group the responses decide, one query after the other. */
  lemma AcceptedGroup(w: World, group: seq<DSNode>, i: nat)
    requires SharedContext(group) && BatchDecides(w, group) && DistinctRefIDs(group) && i < |group|
    requires (forall a :: a in group ==> KeyOf(a) == KeyOf(group[i])) && Accepted(w, group[i])
    ensures
      if exists j :: 0 <= j < i && ResponseFailed(w, group[j])
      then group[i].refID !in GroupEntries(w, group)
      else group[i].refID in GroupEntries(w, group) && GroupEntries(w, group)[group[i].refID] == Alone(w, group[i])
  {
    var n := group[i];
    assert forall j :: 0 <= j < |group| ==> group[j] in group;
    var answers := Answers(w, Context(w, n).value, n.body.request.headers, Batch(group));
    assert GroupEntries(w, group) == Deliver(w, answers, group) by { assert group[0] in group; }
    forall j | 0 <= j < |group|
      ensures Accepted(w, group[j]) && GetResponseFrame(answers, group[j].refID) == FramesIn(Asked(w, group[j]))
    {
      AnswerInBatch(w, Context(w, n).value, n.body.request.headers, group, j);
    }
    assert FailedBefore(answers, group, i) <==> exists j :: 0 <= j < i && ResponseFailed(w, group[j]);
    DeliverAt(w, answers, group, i);
    DeliveredAlone(w, n, answers);
  }

  /**
   * Query by query: a refused request stores an error where per-node mode stores one as well; an
   * accepted query that is not skipped gets exactly its per-node results; a skipped one gets nothing.
   */
  lemma GroupedEntry(w: World, nodes: seq<DSNode>, n: DSNode)
    requires DistinctRefIDs(nodes) && SharedContext(nodes) && RefusedTogether(w, nodes) && n in nodes
    ensures Entry(w, nodes, n).None? <==> Skipped(w, nodes, n)
    ensures !Accepted(w, n) ==> Entry(w, nodes, n).Some? && Entry(w, nodes, n).value.error.Some? && Alone(w, n).error.Some?
    ensures Accepted(w, n) && !Skipped(w, nodes, n) ==> Entry(w, nodes, n) == Some(Alone(w, n))
  {
    var key := KeyOf(n);
    var group := GroupOf(nodes, key);
    GroupDistinct(nodes, key);
    assert n in group;
    var i :| 0 <= i < |group| && group[i] == n;
    SkippedInGroup(w, nodes, n, i);
    if Accepted(w, n) {
      AcceptedGroup(w, group, i);
    } else {
      RefusedGroup(w, group, n);
      forall j | 0 <= j < i ensures !ResponseFailed(w, group[j]) {
        assert group[j] in group;
      }
    }
  }

  lemma SkippedInGroup(w: World, nodes: seq<DSNode>, n: DSNode, i: nat)
    requires DistinctRefIDs(nodes)
    requires i < |GroupOf(nodes, KeyOf(n))| && GroupOf(nodes, KeyOf(n))[i] == n
    ensures Skipped(w, nodes, n) <==> exists j :: 0 <= j < i && ResponseFailed(w, GroupOf(nodes, KeyOf(n))[j])
  {
    var group := GroupOf(nodes, KeyOf(n));
    GroupDistinct(nodes, KeyOf(n));
    if a: DSNode :| KeyOf(a) == KeyOf(n) && Precedes(nodes, a, n) && ResponseFailed(w, a) {
      GroupKeepsOrder(nodes, KeyOf(n), a, n);
      var k, l :| 0 <= k < l < |group| && group[k] == a && group[l] == n;
      assert l == i;
      assert ResponseFailed(w, group[k]);
    }
    if j :| 0 <= j < i && ResponseFailed(w, group[j]) {
      assert Precedes(group, group[j], n);
      GroupKeepsOrder(nodes, KeyOf(n), group[j], n);
    }
  }

  // ---------------------------------------------------------------- the whole run

  /** v is not stored by the nodes from position k on. */
  ghost predicate Untouched(dp: seq<Node>, k: nat, v: string) {
    forall j :: k <= j < |dp| ==> dp[j].refID != v
  }

  ghost predicate SameEntry(a: Vars, b: Vars, v: string) {
    (v in a <==> v in b) && (v in a ==> a[v] == b[v])
  }

  /** Inputs are not stored again once their user runs. */
  lemma InputsUntouched(dp: seq<Node>, k: nat, v: string)
    requires Arranged(dp) && k < |dp| && v in dp[k].NeedsVars()
    ensures Untouched(dp, k, v)
  {
    if v in ByRef(dp) {
      assert v in ByRef(dp[..k]);
      var n := ByRef(dp[..k])[v];
      var i :| 0 <= i < k && dp[i] == n;
      forall j | k <= j < |dp| ensures dp[j].refID != v {
        assert dp[i].refID != dp[j].refID;
      }
    } else {
      forall j | k <= j < |dp| ensures dp[j].refID != v {
        assert dp[j] in dp;
      }
    }
  }

  /**
   * The second phase over the nodes from k on: it reports no error, leaves everything else alone,
   * and stores for each expression what it yields on the final variables.
   */
  lemma {:induction false} RunSettles(w: World, dp: seq<Node>, k: nat, vars: Vars)
    requires Arranged(dp) && k <= |dp|
    ensures
      var r := Run(w, true, dp[k..], vars);
      && r.error == None
      && (forall v :: Untouched(dp, k, v) ==> SameEntry(vars, r.vars, v))
      && (forall j :: k <= j < |dp| && dp[j].body.DataSourceQuery? ==> SameEntry(vars, r.vars, dp[j].refID))
      && (forall j :: k <= j < |dp| && !dp[j].body.DataSourceQuery? ==>
            dp[j] in dp && dp[j].refID in r.vars && r.vars[dp[j].refID] == StepResult(w, dp[j], r.vars))
    decreases |dp| - k
  {
    if k < |dp| {
      var node := dp[k];
      assert node in dp && dp[k..][0] == node && dp[k..][1..] == dp[k + 1..];
      assert Untouched(dp, k + 1, node.refID);
      if node.body.DataSourceQuery? {
        RunSettles(w, dp, k + 1, vars);
      } else {
        var next := vars[node.refID := StepResult(w, node, vars)];
        RunSettles(w, dp, k + 1, next);
        var final := Run(w, true, dp[k + 1..], next).vars;
        assert Run(w, true, dp[k..], vars) == Run(w, true, dp[k + 1..], next);
        SettledStep(w, dp, k, vars, next, final);
      }
    }
  }

  lemma SettledStep(w: World, dp: seq<Node>, k: nat, vars: Vars, next: Vars, final: Vars)
    requires Arranged(dp) && k < |dp| && dp[k].Executable() && dp[k].Valid() && !dp[k].body.DataSourceQuery?
    requires next == vars[dp[k].refID := StepResult(w, dp[k], vars)] && Untouched(dp, k + 1, dp[k].refID)
    requires forall v :: Untouched(dp, k + 1, v) ==> SameEntry(next, final, v)
    requires forall j :: k < j < |dp| && dp[j].body.DataSourceQuery? ==> SameEntry(next, final, dp[j].refID)
    ensures forall v :: Untouched(dp, k, v) ==> SameEntry(vars, final, v)
    ensures forall j :: k <= j < |dp| && dp[j].body.DataSourceQuery? ==> SameEntry(vars, final, dp[j].refID)
    ensures dp[k].refID in final && final[dp[k].refID] == StepResult(w, dp[k], final)
  {
    var node := dp[k];
    forall v | Untouched(dp, k, v) ensures SameEntry(vars, final, v) {
      assert dp[k].refID != v && SameEntry(next, final, v);
    }
    forall v | v in node.NeedsVars() ensures SameEntry(vars, final, v) {
      InputsUntouched(dp, k, v);
    }
    StepReadsNeeded(w, node, vars, final);
    assert SameEntry(next, final, node.refID);
  }

  /** The final variables of a grouped run. */
  function GroupedRun(w: World, dp: seq<Node>): RunResult
    requires forall n :: n in dp ==> n.Valid()
  {
    Run(w, true, dp, GroupedVars(w, QueriesOf(dp)))
  }

  lemma QueriesByRef(dp: seq<Node>, r: string)
    requires DistinctRefIDs(dp)
    ensures r in ByRef(QueriesOf(dp)) <==> r in ByRef(dp) && ByRef(dp)[r].body.DataSourceQuery?
    ensures r in ByRef(QueriesOf(dp)) ==> ByRef(QueriesOf(dp))[r] == ByRef(dp)[r]
  {
  }

  /** A grouped run holds the group entries of the queries and, for every other node, its step on the final variables. */
  lemma GroupedRunSettled(w: World, dp: seq<Node>, r: string)
    requires Arranged(dp) && r in ByRef(dp)
    ensures GroupedRun(w, dp).error == None && ByRef(dp)[r].Executable() && ByRef(dp)[r].Valid()
    ensures
      var vars, n := GroupedRun(w, dp).vars, ByRef(dp)[r];
      if n.body.DataSourceQuery?
      then (r in vars <==> Entry(w, QueriesOf(dp), n).Some?) && (r in vars ==> Some(vars[r]) == Entry(w, QueriesOf(dp), n))
      else r in vars && vars[r] == StepResult(w, n, vars)
  {
    var n := ByRef(dp)[r];
    var i :| 0 <= i < |dp| && dp[i] == n;
    assert dp[0..] == dp;
    RunSettles(w, dp, 0, GroupedVars(w, QueriesOf(dp)));
    QueriesByRef(dp, r);
  }

  /** Names that are no node of the pipeline are not stored. */
  lemma OnlyNodesStored(w: World, dp: seq<Node>, r: string)
    requires Arranged(dp) && r !in ByRef(dp)
    ensures r !in GroupedRun(w, dp).vars
  {
    assert dp[0..] == dp;
    RunSettles(w, dp, 0, GroupedVars(w, QueriesOf(dp)));
    forall j | 0 <= j < |dp| ensures dp[j].refID != r {
      ByRefOfDistinct(dp, j);
    }
    assert Untouched(dp, 0, r);
    QueriesByRef(dp, r);
  }

  lemma {:induction false} SameNodeStored(w: World, dp: seq<Node>, dp': seq<Node>, r: string)
    requires Arranged(dp) && Arranged(dp') && ByRef(dp) == ByRef(dp') && QueriesOf(dp) == QueriesOf(dp')
    requires Ranked(ByRef(dp), Positions(dp))
    ensures SameEntry(GroupedRun(w, dp).vars, GroupedRun(w, dp').vars, r)
    decreases if r in ByRef(dp) then Positions(dp)[r] + 1 else 0
  {
    var vars, vars' := GroupedRun(w, dp).vars, GroupedRun(w, dp').vars;
    if r in ByRef(dp) {
      GroupedRunSettled(w, dp, r);
      GroupedRunSettled(w, dp', r);
      var n := ByRef(dp)[r];
      if !n.body.DataSourceQuery? {
        forall v | v in n.NeedsVars() ensures SameEntry(vars, vars', v) {
          SameNodeStored(w, dp, dp', v);
        }
        StepReadsNeeded(w, n, vars, vars');
      }
    } else {
      OnlyNodesStored(w, dp, r);
      OnlyNodesStored(w, dp', r);
    }
  }

  /** Confluence of the second mode: arrangements of the same nodes that keep the order of the queries leave the same results. */
  lemma GroupedRunsAgree(w: World, dp: seq<Node>, dp': seq<Node>)
    requires Arranged(dp) && Arranged(dp') && ByRef(dp) == ByRef(dp') && QueriesOf(dp) == QueriesOf(dp')
    ensures GroupedRun(w, dp) == GroupedRun(w, dp')
  {
    PositionsRank(dp);
    var run, run' := GroupedRun(w, dp), GroupedRun(w, dp');
    forall r ensures SameEntry(run.vars, run'.vars, r) {
      SameNodeStored(w, dp, dp', r);
    }
    SameEntries(run.vars, run'.vars);
    NoGroupedError(w, dp);
    NoGroupedError(w, dp');
  }

  lemma SameEntries(a: Vars, b: Vars)
    requires forall r :: SameEntry(a, b, r)
    ensures a == b
  {
    forall r | r in a ensures r in b && a[r] == b[r] { assert SameEntry(a, b, r); }
    forall r | r in b ensures r in a { assert SameEntry(a, b, r); }
  }

  /** A grouped run of an arrangement never fails as a whole. */
  lemma NoGroupedError(w: World, dp: seq<Node>)
    requires Arranged(dp)
    ensures GroupedRun(w, dp).error == None
  {
    assert dp[0..] == dp;
    RunSettles(w, dp, 0, GroupedVars(w, QueriesOf(dp)));
  }

  // ---------------------------------------------------------------- the order of the queries

  lemma {:induction false} QueriesKeepOrder(dp: seq<Node>, a: DSNode, b: DSNode)
    ensures Precedes(QueriesOf(dp), a, b) <==> Precedes(dp, a, b)
  {
    if dp != [] {
      var front, last := dp[..|dp| - 1], dp[|dp| - 1];
      QueriesKeepOrder(front, a, b);
      assert dp == front + [last];
      PrecedesAppend(front, last, a, b);
      PrecedesAppend(QueriesOf(front), last, a, b);
    }
  }

  lemma HasElement(a: seq<Node>)
    ensures a != [] <==> exists n :: n in a
  {
    if a != [] {
      assert a[0] in a;
    }
  }

  /** Two lists of the same nodes in the same order are equal. */
  lemma {:induction false} OrderDetermines(a: seq<Node>, b: seq<Node>)
    requires DistinctRefIDs(a) && DistinctRefIDs(b) && forall n :: n in a <==> n in b
    requires forall x, y :: Precedes(a, x, y) ==> Precedes(b, x, y)
    ensures a == b
  {
    HasElement(a);
    HasElement(b);
    if a != [] {
      LastsAgree(a, b);
      var front, last := a[..|a| - 1], a[|a| - 1];
      assert a == front + [last] && b == b[..|b| - 1] + [last];
      forall n ensures n in front <==> n in b[..|b| - 1] {
        FrontWithoutLast(a, n);
        FrontWithoutLast(b, n);
      }
      forall x, y | Precedes(front, x, y) ensures Precedes(b[..|b| - 1], x, y) {
        PrecedesAppend(front, last, x, y);
        PrecedesAppend(b[..|b| - 1], last, x, y);
        assert y in front;
        FrontWithoutLast(a, y);
      }
      OrderDetermines(front, b[..|b| - 1]);
    }
  }

  lemma FrontWithoutLast(a: seq<Node>, n: Node)
    requires DistinctRefIDs(a) && a != []
    ensures n in a[..|a| - 1] <==> n in a && n != a[|a| - 1]
  {
    assert a == a[..|a| - 1] + [a[|a| - 1]];
    if n in a[..|a| - 1] {
      var i :| 0 <= i < |a| - 1 && a[i] == n;
      assert a[i].refID != a[|a| - 1].refID;
    }
  }

  lemma LastsAgree(a: seq<Node>, b: seq<Node>)
    requires DistinctRefIDs(a) && DistinctRefIDs(b) && a != [] && forall n :: n in a <==> n in b
    requires forall x, y :: Precedes(a, x, y) ==> Precedes(b, x, y)
    ensures b != [] && b[|b| - 1] == a[|a| - 1]
  {
    var last := a[|a| - 1];
    assert last in b;
    var z := b[|b| - 1];
    assert z in a;
    var i :| 0 <= i < |a| && a[i] == z;
    NothingAfterLast(b, last);
    assert i < |a| - 1 ==> Precedes(a, z, last);
  }

  lemma NothingAfterLast(b: seq<Node>, n: Node)
    requires DistinctRefIDs(b) && b != []
    ensures !Precedes(b, b[|b| - 1], n)
  {
    forall k | 0 <= k < |b| - 1 ensures b[k] != b[|b| - 1] {
      assert b[k].refID != b[|b| - 1].refID;
    }
  }

  /** Every pipeline of a request has the queries in the order of the request. */
  lemma PipelineQueries(ns: seq<Node>, p: seq<Node>)
    requires IsPipelineOf(ns, p) && DistinctRefIDs(ns)
    ensures QueriesOf(p) == QueriesOf(ns)
  {
    QueriesDistinct(ns);
    QueriesDistinct(p);
    forall x: Node, y: Node | Precedes(QueriesOf(ns), x, y) ensures Precedes(QueriesOf(p), x, y) {
      assert x in QueriesOf(ns) && y in QueriesOf(ns);
      QueriesKeepOrder(ns, x, y);
      QueriesKeepOrder(p, x, y);
    }
    OrderDetermines(QueriesOf(ns), QueriesOf(p));
  }

  /** Same results, up to the wording of an error. */
  predicate Alike(a: Results, b: Results) {
    a == b || (a.error.Some? && b.error.Some?)
  }

  lemma {:induction false} FirstFailedAlike(names: seq<string>, a: Vars, b: Vars)
    requires forall v :: v in names ==> v in a && v in b && Alike(a[v], b[v])
    ensures FirstFailed(names, a) == FirstFailed(names, b)
  {
    if names != [] {
      assert names[0] in names && forall v :: v in names[1..] ==> v in names;
      FirstFailedAlike(names[1..], a, b);
    }
  }

  lemma StepAlike(w: World, node: Node, a: Vars, b: Vars)
    requires node.Executable() && node.Valid()
    requires forall v :: v in node.NeedsVars() ==> v in a && v in b && Alike(a[v], b[v])
    ensures StepResult(w, node, a) == StepResult(w, node, b)
  {
    var names := node.NeedsVars();
    FirstFailedAlike(names, a, b);
    if FirstFailed(names, a).None? {
      FirstFailedMeaning(names, a);
      FirstFailedMeaning(names, b);
      StepReadsNeeded(w, node, a, b);
    }
  }

  /** Neither the node nor anything it depends on is a skipped query. */
  ghost predicate Reached(w: World, dp: seq<Node>, r: string)
    requires Arranged(dp) && Ranked(ByRef(dp), Positions(dp)) && r in ByRef(dp)
  {
    forall n: DSNode :: n in dp && n.refID in Ancestors(ByRef(dp), Positions(dp), r) + {r} ==> !Skipped(w, QueriesOf(dp), n)
  }

  /** A pipeline as the builder makes it: every reference leads to one of its nodes. */
  ghost predicate Closed(dp: seq<Node>) {
    forall n, v :: n in dp && v in n.NeedsVars() ==> v in ByRef(dp)
  }

  /** The two modes agree on a node. */
  ghost predicate ModesAgree(w: World, dp: seq<Node>, r: string)
    requires r in ByRef(dp) && forall n :: n in dp ==> n.Valid()
  {
    var alone, grouped := Run(w, false, dp, map[]).vars, GroupedRun(w, dp).vars;
    r in alone && r in grouped && if ByRef(dp)[r].body.DataSourceQuery? then Alike(alone[r], grouped[r]) else alone[r] == grouped[r]
  }

  lemma AloneRun(w: World, dp: seq<Node>)
    requires Arranged(dp)
    ensures Ranked(ByRef(dp), Positions(dp)) && Consistent(w, ByRef(dp), Run(w, false, dp, map[]).vars)
  {
    PositionsRank(dp);
    RunIsEval(w, dp, Positions(dp));
    EvalAllConsistent(w, ByRef(dp), Positions(dp));
  }

  /**
   * Where no skipped query is involved the modes agree: an expression gets exactly the same
   * results, even below queries whose whole request was refused, and a query the same results or,
   * when its request was refused, an error in both modes.
   */
  lemma {:induction false} ReachedNodesAgree(w: World, dp: seq<Node>, r: string)
    requires Arranged(dp) && Closed(dp) && SharedContext(QueriesOf(dp)) && RefusedTogether(w, QueriesOf(dp)) && r in ByRef(dp)
    requires Ranked(ByRef(dp), Positions(dp)) && Reached(w, dp, r)
    ensures ModesAgree(w, dp, r)
    decreases Positions(dp)[r]
  {
    var nodes, alone, grouped := ByRef(dp), Run(w, false, dp, map[]).vars, GroupedRun(w, dp).vars;
    var n := nodes[r];
    AloneRun(w, dp);
    GroupedRunSettled(w, dp, r);
    if n.body.DataSourceQuery? {
      QueriesDistinct(dp);
      GroupedEntry(w, QueriesOf(dp), n);
      assert StepResult(w, n, alone) == Alone(w, n);
    } else {
      forall v | v in n.NeedsVars() ensures v in alone && v in grouped && Alike(alone[v], grouped[v]) {
        assert v in nodes;
        InputReached(w, dp, r, v);
        ReachedNodesAgree(w, dp, v);
      }
      StepAlike(w, n, alone, grouped);
    }
  }

  lemma InputReached(w: World, dp: seq<Node>, r: string, v: string)
    requires Arranged(dp) && Ranked(ByRef(dp), Positions(dp)) && r in ByRef(dp) && Reached(w, dp, r)
    requires v in ByRef(dp) && v in ByRef(dp)[r].NeedsVars()
    ensures Reached(w, dp, v)
  {
    var nodes, rank := ByRef(dp), Positions(dp);
    assert Ancestors(nodes, rank, v) + {v} <= Ancestors(nodes, rank, r);
  }

  /**
   * Grouped execution agrees with per-node execution on every node if and only if no query is
   * skipped, that is, unless some accepted group has a failed response before its last query.
   */
  lemma ModesAgreeExactlyWhenNothingSkipped(w: World, dp: seq<Node>)
    requires Arranged(dp) && Closed(dp) && SharedContext(QueriesOf(dp)) && RefusedTogether(w, QueriesOf(dp))
    ensures (forall r :: r in ByRef(dp) ==> ModesAgree(w, dp, r)) <==>
            (forall n: DSNode :: n in dp ==> !Skipped(w, QueriesOf(dp), n))
  {
    PositionsRank(dp);
    if forall n: DSNode :: n in dp ==> !Skipped(w, QueriesOf(dp), n) {
      forall r | r in ByRef(dp) ensures ModesAgree(w, dp, r) {
        ReachedNodesAgree(w, dp, r);
      }
    } else {
      var n: DSNode :| n in dp && Skipped(w, QueriesOf(dp), n);
      var i :| 0 <= i < |dp| && dp[i] == n;
      ByRefOfDistinct(dp, i);
      QueriesDistinct(dp);
      GroupedEntry(w, QueriesOf(dp), n);
      GroupedRunSettled(w, dp, n.refID);
      assert !ModesAgree(w, dp, n.refID);
    }
  }

  /**
   * What becomes of an expression on a skipped query: it is not stopped by a dependency error but
   * executed without its input, so a threshold succeeds with no values at all, and a hysteresis
   * command reports no data.
   */
  lemma SkippedInputGoesUnnoticed(w: World, dp: seq<Node>, n: DSNode, user: Node)
    requires Arranged(dp) && SharedContext(QueriesOf(dp)) && RefusedTogether(w, QueriesOf(dp)) && n in dp && user in dp
    requires Skipped(w, QueriesOf(dp), n) && user.body.Expression? && user.NeedsVars() == [n.refID]
    ensures user.refID in GroupedRun(w, dp).vars
    ensures
      var stored := GroupedRun(w, dp).vars[user.refID];
      match user.body.command
      case PlainThreshold(_) => stored == Results([], None)
      case HysteresisThreshold(_) => stored == Results([NoData], None)
      case command => Pipeline.Holds(stored, w.command(command, map[]))
  {
    var i :| 0 <= i < |dp| && dp[i] == n;
    var j :| 0 <= j < |dp| && dp[j] == user;
    ByRefOfDistinct(dp, i);
    ByRefOfDistinct(dp, j);
    QueriesDistinct(dp);
    GroupedEntry(w, QueriesOf(dp), n);
    GroupedRunSettled(w, dp, n.refID);
    GroupedRunSettled(w, dp, user.refID);
    StepWithoutInput(w, user, n.refID, GroupedRun(w, dp).vars);
  }

  /** An expression whose one input is absent. */
  lemma StepWithoutInput(w: World, user: Node, name: string, vars: Vars)
    requires user.body.Expression? && user.Valid() && user.NeedsVars() == [name] && name !in vars
    ensures
      var stored := StepResult(w, user, vars);
      match user.body.command
      case PlainThreshold(_) => stored == Results([], None)
      case HysteresisThreshold(_) => stored == Results([NoData], None)
      case command => Pipeline.Holds(stored, w.command(command, map[]))
  {
    assert FirstFailed(user.NeedsVars(), vars) == None by { assert user.NeedsVars()[1..] == []; }
    match user.body.command {
      case PlainThreshold(tc) =>
        Threshold.ExecuteIsPointwise(tc, vars);
      case HysteresisThreshold(h) =>
      case command =>
        assert Visible(vars, command.NeedsVars()) == map[];
    }
  }
}
