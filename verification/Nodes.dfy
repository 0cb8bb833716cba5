/** The nodes of an expression request: data source queries, commands and machine-learning calls. */
module Nodes {
  import opened Basics
  import opened MathExp
  import opened Hysteresis

  datatype NodeType = TypeCMDNode | TypeDatasourceNode | TypeMLNode

  datatype CommandType = TypeMath | TypeReduce | TypeResample | TypeClassicConditions | TypeThreshold

  /** code stands for the settings of a command whose evaluation is not part of this model. */
  datatype Command =
    | MathCommand(code: nat, varNames: seq<string>)
    | ReduceCommand(code: nat, varToReduce: string)
    | ResampleCommand(code: nat, varToResample: string)
    | ConditionsCommand(code: nat, inputs: seq<string>)
    | PlainThreshold(threshold: ThresholdCommand)
    | HysteresisThreshold(hysteresis: HysteresisCommand)
  {
    function NeedsVars(): seq<string> {
      match this
      case MathCommand(_, names) => names
      case ReduceCommand(_, v) => [v]
      case ResampleCommand(_, v) => [v]
      case ConditionsCommand(_, names) => names
      case PlainThreshold(tc) => [tc.referenceVar]
      case HysteresisThreshold(h) => [h.referenceVar]
    }

    function Type(): CommandType {
      match this
      case MathCommand(_, _) => TypeMath
      case ReduceCommand(_, _) => TypeReduce
      case ResampleCommand(_, _) => TypeResample
      case ConditionsCommand(_, _) => TypeClassicConditions
      case PlainThreshold(_) => TypeThreshold
      case HysteresisThreshold(_) => TypeThreshold
    }

    /** Threshold commands as UnmarshalThresholdCommand builds them. */
    predicate Valid() {
      match this
      case PlainThreshold(tc) => tc.Valid()
      case HysteresisThreshold(h) => h.Valid()
      case _ => true
    }
  }

  /** The variables whose results a command is evaluated on. */
  predicate Reads(c: Command, v: string) {
    match c
    case MathCommand(_, names) => v in names
    case ReduceCommand(_, name) => v == name
    case ResampleCommand(_, name) => v == name
    case ConditionsCommand(_, names) => v in names
    case PlainThreshold(tc) => v == tc.referenceVar
    case HysteresisThreshold(h) => v == h.referenceVar
  }

  /** A command needs exactly the variables it reads; only commands need variables. */
  lemma NeedsAreReads(node: Node, v: string)
    requires node.Executable()
    ensures v in node.NeedsVars() <==> node.body.Expression? && Reads(node.body.command, v)
  {
  }

  datatype DataSource = DataSource(id: int, uid: string, dsType: string)

  /** The parts of the request that every data source node of it carries. */
  datatype RequestContext = RequestContext(user: string, headers: map<string, string>)

  datatype Body =
    | DataSourceQuery(datasource: DataSource, orgID: int, request: RequestContext, payload: nat)
    | Expression(command: Command)
    | MachineLearning(call: nat)
    | NotExecutable(typeName: string, needs: seq<string>)

  datatype Node = Node(id: nat, refID: string, body: Body) {
    function NeedsVars(): seq<string> {
      match body
      case Expression(command) => command.NeedsVars()
      case NotExecutable(_, needs) => needs
      case _ => []
    }

    predicate Executable() {
      !body.NotExecutable?
    }

    predicate Valid() {
      body.Expression? ==> body.command.Valid()
    }
  }

  ghost predicate DistinctRefIDs(ns: seq<Node>) {
    forall i, j :: 0 <= i < j < |ns| ==> ns[i].refID != ns[j].refID
  }

  /** The lookup table from reference ids to nodes; a later node replaces an earlier one. */
  function ByRef(ns: seq<Node>): (m: map<string, Node>)
    ensures forall r :: r in m ==> m[r] in ns && m[r].refID == r
    ensures forall n :: n in ns ==> n.refID in m
  {
    if ns == [] then map[]
    else ByRef(ns[..|ns| - 1])[ns[|ns| - 1].refID := ns[|ns| - 1]]
  }

  lemma ByRefOfDistinct(ns: seq<Node>, i: nat)
    requires DistinctRefIDs(ns) && i < |ns|
    ensures ns[i].refID in ByRef(ns) && ByRef(ns)[ns[i].refID] == ns[i]
  {
  }

  /** Two arrangements of the same nodes have the same lookup table. */
  lemma ByRefOfSame(ns: seq<Node>, p: seq<Node>)
    requires DistinctRefIDs(ns) && DistinctRefIDs(p) && forall n :: n in ns <==> n in p
    ensures ByRef(ns) == ByRef(p)
  {
  }

  /** Every input that is a node of the arrangement stands before its user. */
  ghost predicate InputsFirst(p: seq<Node>) {
    forall k, v :: 0 <= k < |p| && v in p[k].NeedsVars() && v in ByRef(p) ==> v in ByRef(p[..k])
  }
}
