/**
 * The part of pkg/expr/mathexp that threshold expressions run on: labelled values, the
 * label-matching union of two results, and the evaluation of an expression tree.
 * Null and NaN samples are not part of this model; numbers are reals.
 */
module MathExp {
  import opened Basics

  type Labels = map<string, string>

  datatype Point = Point(time: int, x: real)

  datatype Value =
    | Scalar(x: real)
    | Number(labels: Labels, x: real)
    | Series(labels: Labels, points: seq<Point>)
    | NoData
  {
    function GetLabels(): Labels {
      match this
      case Number(ls, _) => ls
      case Series(ls, _) => ls
      case _ => map[]
    }
  }

  datatype Error =
    | UnknownThresholdFunc(name: string)
    | WrongArgumentCount(got: nat, need: nat)
    | LoadingFailed(cause: Error)
    | UnloadingFailed(cause: Error)
    | DependencyError(refID: string, depRefID: string)
    | UnexpectedNodeType(refID: string)
    | QueryError(refID: string, datasourceUID: string, cause: Error)
    | ConversionError(refID: string, cause: Error)
    | DataSourceNotFound
    | External(code: int)

  datatype Results = Results(values: seq<Value>, error: Option<Error>)

  type Vars = map<string, Results>

  const NoResults := Results([], None)

  /** Reading a Go map: an absent key yields the zero Results. */
  function Lookup(vars: Vars, name: string): Results {
    if name in vars then vars[name] else NoResults
  }

  predicate IsNoData(r: Results) {
    |r.values| == 0 || (|r.values| == 1 && r.values[0].NoData?)
  }

  // ---------------------------------------------------------------- expressions

  datatype Op = Greater | Less | And | Or

  /** A literal is what "%f" leaves of a number: a whole count of millionths. */
  datatype Expr =
    | Literal(micros: int)
    | Var(name: string)
    | Binary(op: Op, left: Expr, right: Expr)
    | Not(arg: Expr)

  function Truth(b: bool): real { if b then 1.0 else 0.0 }

  function BinaryOp(op: Op, a: real, b: real): real {
    match op
    case Greater => Truth(a > b)
    case Less => Truth(a < b)
    case And => Truth(a != 0.0 && b != 0.0)
    case Or => Truth(a != 0.0 || b != 0.0)
  }

  function NotOp(a: real): real { Truth(a == 0.0) }

  function Millionths(n: int): real { n as real / 1000000.0 }

  // ---------------------------------------------------------------- union

  datatype Pairing = Pairing(labels: Labels, a: Value, b: Value)

  predicate Contains(la: Labels, lb: Labels) {
    forall k :: k in lb ==> k in la && la[k] == lb[k]
  }

  /** The labels under which two values are joined, if they may be joined. */
  function JoinLabels(la: Labels, lb: Labels): Option<Labels> {
    if la == lb || |la| == 0 || |lb| == 0 then Some(if |la| == 0 then lb else la)
    else if |la| == |lb| then None
    else if Contains(la, lb) then Some(la)
    else if Contains(lb, la) then Some(lb)
    else None
  }

  /** Two label sets may be joined exactly when one contains the other; the larger one labels the result. */
  lemma JoinLabelsMeaning(la: Labels, lb: Labels)
    ensures JoinLabels(la, lb).Some? <==> (forall k :: k in lb ==> k in la && la[k] == lb[k]) || (forall k :: k in la ==> k in lb && lb[k] == la[k])
    ensures JoinLabels(la, lb).Some? ==> JoinLabels(la, lb).value == la + lb
  {
    if |la| == |lb| {
      if Contains(la, lb) { SameSizeContained(la, lb); }
      if Contains(lb, la) { SameSizeContained(lb, la); }
    }
    if |la| == 0 { assert la == map[]; }
    if |lb| == 0 { assert lb == map[]; }
    if Contains(la, lb) { assert la + lb == la; }
    if Contains(lb, la) { assert la + lb == lb; }
  }

  lemma SameSizeContained(la: Labels, lb: Labels)
    requires |la| == |lb| && Contains(la, lb)
    ensures la == lb
  {
    assert lb.Keys <= la.Keys && |lb.Keys| == |lb| == |la| == |la.Keys|;
    assert |la.Keys - lb.Keys| == 0;
  }

  function Row(a: Value, rights: seq<Value>): seq<Pairing> {
    if rights == [] then []
    else
      var rest := Row(a, rights[1..]);
      match JoinLabels(a.GetLabels(), rights[0].GetLabels())
      case Some(ls) => [Pairing(ls, a, rights[0])] + rest
      case None => rest
  }

  function Pairs(lefts: seq<Value>, rights: seq<Value>): seq<Pairing> {
    if lefts == [] then [] else Row(lefts[0], rights) + Pairs(lefts[1..], rights)
  }

  function Union(lefts: seq<Value>, rights: seq<Value>): seq<Pairing> {
    if |lefts| == 0 || |rights| == 0 then []
    else if (|lefts| == 1 || |rights| == 1) && (lefts[0].NoData? || rights[0].NoData?) then
      [Pairing(map[], lefts[0], rights[0])]
    else
      var unions := Pairs(lefts, rights);
      if unions == [] && |lefts| == 1 && |rights| == 1 then [Pairing(map[], lefts[0], rights[0])]
      else unions
  }

  function SeriesLeft(op: Op, points: seq<Point>, c: real): seq<Point> {
    seq(|points|, i requires 0 <= i < |points| => Point(points[i].time, BinaryOp(op, points[i].x, c)))
  }

  function SeriesRight(op: Op, c: real, points: seq<Point>): seq<Point> {
    seq(|points|, i requires 0 <= i < |points| => Point(points[i].time, BinaryOp(op, c, points[i].x)))
  }

  /** The last sample of a series at time t, as the map filled point by point keeps it. */
  function SampleAt(points: seq<Point>, t: int): Option<real> {
    if points == [] then None
    else if points[|points| - 1].time == t then Some(points[|points| - 1].x)
    else SampleAt(points[..|points| - 1], t)
  }

  function SeriesSeries(op: Op, a: seq<Point>, b: seq<Point>): seq<Point> {
    if a == [] then []
    else
      var rest := SeriesSeries(op, a[1..], b);
      match SampleAt(b, a[0].time)
      case None => rest
      case Some(y) => [Point(a[0].time, BinaryOp(op, a[0].x, y))] + rest
  }

  function Combine(op: Op, p: Pairing): Value {
    match (p.a, p.b)
    case (NoData, _) => NoData
    case (_, NoData) => NoData
    case (Scalar(x), Scalar(y)) => Scalar(BinaryOp(op, x, y))
    case (Scalar(x), Number(_, y)) => Number(p.labels, BinaryOp(op, x, y))
    case (Scalar(x), Series(_, ys)) => Series(p.labels, SeriesRight(op, x, ys))
    case (Number(_, x), Scalar(y)) => Number(p.labels, BinaryOp(op, x, y))
    case (Number(_, x), Number(_, y)) => Number(p.labels, BinaryOp(op, x, y))
    case (Number(_, x), Series(_, ys)) => Series(p.labels, SeriesRight(op, x, ys))
    case (Series(_, xs), Scalar(y)) => Series(p.labels, SeriesLeft(op, xs, y))
    case (Series(_, xs), Number(_, y)) => Series(p.labels, SeriesLeft(op, xs, y))
    case (Series(_, xs), Series(_, ys)) => Series(p.labels, SeriesSeries(op, xs, ys))
  }

  function CombineAll(op: Op, ps: seq<Pairing>): seq<Value> {
    seq(|ps|, i requires 0 <= i < |ps| => Combine(op, ps[i]))
  }

  function Negate(v: Value): Value {
    match v
    case Scalar(x) => Scalar(NotOp(x))
    case Number(ls, x) => Number(ls, NotOp(x))
    case Series(ls, ps) =>
      Series(ls, seq(|ps|, i requires 0 <= i < |ps| => Point(ps[i].time, NotOp(ps[i].x))))
    case NoData => NoData
  }

  /** Evaluates an expression tree against the variables, value list by value list. */
  function Walk(e: Expr, vars: Vars): seq<Value> {
    match e
    case Literal(n) => [Scalar(Millionths(n))]
    case Var(name) => Lookup(vars, name).values
    case Binary(op, l, r) => CombineAll(op, Union(Walk(l, vars), Walk(r, vars)))
    case Not(a) =>
      var vs := Walk(a, vars);
      seq(|vs|, i requires 0 <= i < |vs| => Negate(vs[i]))
  }

  // ---------------------------------------------------------------- the pointwise meaning

  /** e mentions a variable. */
  predicate Open(e: Expr) {
    match e
    case Literal(_) => false
    case Var(_) => true
    case Binary(_, l, r) => Open(l) || Open(r)
    case Not(a) => Open(a)
  }

  /** Every variable of e is `name`. */
  predicate OnlyVar(e: Expr, name: string) {
    match e
    case Literal(_) => true
    case Var(n) => n == name
    case Binary(_, l, r) => OnlyVar(l, name) && OnlyVar(r, name)
    case Not(a) => OnlyVar(a, name)
  }

  /** Some operator of e has a variable on both sides, so that results are joined by labels. */
  predicate Joins(e: Expr) {
    match e
    case Literal(_) => false
    case Var(_) => false
    case Binary(_, l, r) => (Open(l) && Open(r)) || Joins(l) || Joins(r)
    case Not(a) => Joins(a)
  }

  /** The value of e when its variable is the number x. */
  function At(e: Expr, x: real): real {
    match e
    case Literal(n) => Millionths(n)
    case Var(_) => x
    case Binary(op, l, r) => BinaryOp(op, At(l, x), At(r, x))
    case Not(a) => NotOp(At(a, x))
  }

  function Mapped(e: Expr, points: seq<Point>): (r: seq<Point>)
    ensures |r| == |points|
  {
    seq(|points|, i requires 0 <= i < |points| => Point(points[i].time, At(e, points[i].x)))
  }

  /** e applied to one labelled value, sample by sample. */
  function Pointwise(e: Expr, v: Value): Value {
    match v
    case Scalar(x) => Scalar(At(e, x))
    case Number(ls, x) => Number(ls, At(e, x))
    case Series(ls, ps) => Series(ls, Mapped(e, ps))
    case NoData => NoData
  }

  function PointwiseAll(e: Expr, vs: seq<Value>): (r: seq<Value>)
    ensures |r| == |vs|
  {
    seq(|vs|, i requires 0 <= i < |vs| => Pointwise(e, vs[i]))
  }

  /** No two values have labels of which one contains the other. */
  ghost predicate Incomparable(vs: seq<Value>) {
    forall i, j :: 0 <= i < |vs| && 0 <= j < |vs| && i != j ==>
      JoinLabels(vs[i].GetLabels(), vs[j].GetLabels()) == None
  }

  /** The sample that the one at i is paired with when a series is joined with itself: the last one of its time. */
  function Latest(points: seq<Point>, i: nat): real
    requires i < |points|
  {
    SampleAtSome(points, i);
    SampleAt(points, points[i].time).value
  }

  lemma {:induction false} SampleAtLast(points: seq<Point>, i: nat)
    requires i < |points| && forall j :: i < j < |points| ==> points[j].time != points[i].time
    ensures SampleAt(points, points[i].time) == Some(points[i].x)
  {
    if i < |points| - 1 {
      SampleAtLast(points[..|points| - 1], i);
    }
  }

  /** It is the value at the last position that has the same time. */
  lemma LatestMeaning(points: seq<Point>, i: nat, last: nat)
    requires i < |points| && last < |points| && points[last].time == points[i].time
    requires forall j :: last < j < |points| ==> points[j].time != points[i].time
    ensures Latest(points, i) == points[last].x
  {
    SampleAtLast(points, last);
  }

  /** Pairing each sample with the last one of its time makes no difference to any join within e. */
  predicate RepeatsAgree(e: Expr, points: seq<Point>) {
    match e
    case Literal(_) => true
    case Var(_) => true
    case Not(a) => RepeatsAgree(a, points)
    case Binary(op, l, r) =>
      && RepeatsAgree(l, points) && RepeatsAgree(r, points)
      && (Open(l) && Open(r) ==> forall i :: 0 <= i < |points| ==> Joined(op, l, r, points, i) == Point(points[i].time, At(e, points[i].x)))
  }

  /** The sample that joining a series with itself yields at position i. */
  function Joined(op: Op, l: Expr, r: Expr, points: seq<Point>, i: nat): Point
    requires i < |points|
  {
    Point(points[i].time, BinaryOp(op, At(l, points[i].x), At(r, Latest(points, i))))
  }

  predicate AllRepeatsAgree(e: Expr, vs: seq<Value>) {
    forall i :: 0 <= i < |vs| && vs[i].Series? ==> RepeatsAgree(e, vs[i].points)
  }

  /** Only a list of its own starts with "no data". */
  predicate NoDataAlone(vs: seq<Value>) {
    vs != [] && vs[0].NoData? ==> |vs| == 1
  }

  ghost predicate DistinctTimes(points: seq<Point>) {
    forall i, j :: 0 <= i < j < |points| ==> points[i].time != points[j].time
  }

  // ---------------------------------------------------------------- proofs

  lemma {:induction false} SampleAtSome(points: seq<Point>, i: nat)
    requires i < |points|
    ensures SampleAt(points, points[i].time).Some?
  {
    var last := |points| - 1;
    if i < last {
      SampleAtSome(points[..last], i);
    }
  }

  lemma {:induction false} SampleAtOwnTime(points: seq<Point>, i: nat)
    requires DistinctTimes(points) && i < |points|
    ensures SampleAt(points, points[i].time) == Some(points[i].x)
  {
    var last := |points| - 1;
    if i < last {
      SampleAtOwnTime(points[..last], i);
    }
  }

  /** Without repeated times no join is disturbed. */
  lemma {:induction false} DistinctTimesAgree(e: Expr, points: seq<Point>)
    requires DistinctTimes(points)
    ensures RepeatsAgree(e, points)
  {
    match e
    case Literal(_) =>
    case Var(_) =>
    case Not(a) => DistinctTimesAgree(a, points);
    case Binary(op, l, r) =>
      DistinctTimesAgree(l, points);
      DistinctTimesAgree(r, points);
      forall i | 0 <= i < |points| ensures Joined(op, l, r, points, i) == Point(points[i].time, At(e, points[i].x)) {
        SampleAtOwnTime(points, i);
      }
  }

  /** Two series with the same times combine sample by sample, each left sample with the last right one of its time. */
  lemma {:induction false} SeriesSeriesAligned(op: Op, a: seq<Point>, b: seq<Point>, k: nat)
    requires k <= |a| == |b|
    requires forall i :: 0 <= i < |a| ==> a[i].time == b[i].time
    ensures |SeriesSeries(op, a[k..], b)| == |a| - k
    ensures forall i :: k <= i < |a| ==>
      SeriesSeries(op, a[k..], b)[i - k] == Point(a[i].time, BinaryOp(op, a[i].x, Latest(b, i)))
    decreases |a| - k
  {
    if k < |a| {
      SeriesSeriesAligned(op, a, b, k + 1);
      SampleAtSome(b, k);
      assert a[k..][1..] == a[k + 1..];
    }
  }

  lemma {:induction false} SampleAtMapped(e: Expr, points: seq<Point>, t: int)
    ensures SampleAt(Mapped(e, points), t) == match SampleAt(points, t) case None => None case Some(x) => Some(At(e, x))
  {
    if points != [] {
      var front := points[..|points| - 1];
      SampleAtMapped(e, front, t);
      assert Mapped(e, points)[..|points| - 1] == Mapped(e, front);
    }
  }

  lemma LatestMapped(e: Expr, points: seq<Point>, i: nat)
    requires i < |points|
    ensures Latest(Mapped(e, points), i) == At(e, Latest(points, i))
  {
    SampleAtSome(points, i);
    SampleAtMapped(e, points, points[i].time);
  }

  lemma {:induction false} RowEmpty(a: Value, rights: seq<Value>)
    requires forall j :: 0 <= j < |rights| ==> JoinLabels(a.GetLabels(), rights[j].GetLabels()) == None
    ensures Row(a, rights) == []
  {
    if rights != [] {
      RowEmpty(a, rights[1..]);
    }
  }

  lemma {:induction false} RowSingle(a: Value, rights: seq<Value>, i: nat)
    requires i < |rights|
    requires forall j :: 0 <= j < |rights| && j != i ==> JoinLabels(a.GetLabels(), rights[j].GetLabels()) == None
    requires a.GetLabels() == rights[i].GetLabels()
    ensures Row(a, rights) == [Pairing(a.GetLabels(), a, rights[i])]
  {
    if i == 0 {
      RowEmpty(a, rights[1..]);
    } else {
      RowSingle(a, rights[1..], i - 1);
    }
  }

  /** Value lists with the same pairwise incomparable labels are joined along the diagonal. */
  lemma {:induction false} PairsDiagonal(lefts: seq<Value>, rights: seq<Value>, k: nat)
    requires k <= |lefts| == |rights| && Incomparable(rights)
    requires forall i :: 0 <= i < |lefts| ==> lefts[i].GetLabels() == rights[i].GetLabels()
    ensures |Pairs(lefts[k..], rights)| == |lefts| - k
    ensures forall i :: 0 <= i < |lefts| - k ==>
      Pairs(lefts[k..], rights)[i] == Pairing(lefts[k + i].GetLabels(), lefts[k + i], rights[k + i])
    decreases |lefts| - k
  {
    if k < |lefts| {
      RowSingle(lefts[k], rights, k);
      PairsDiagonal(lefts, rights, k + 1);
      assert lefts[k..][1..] == lefts[k + 1..];
    }
  }

  lemma {:induction false} PairsScalarRight(lefts: seq<Value>, s: Value, k: nat)
    requires k <= |lefts| && s.Scalar?
    ensures |Pairs(lefts[k..], [s])| == |lefts| - k
    ensures forall i :: 0 <= i < |lefts| - k ==>
      Pairs(lefts[k..], [s])[i] == Pairing(lefts[k + i].GetLabels(), lefts[k + i], s)
    decreases |lefts| - k
  {
    if k < |lefts| {
      PairsScalarRight(lefts, s, k + 1);
      assert lefts[k..][1..] == lefts[k + 1..];
      RowSingleScalar(lefts[k], s);
    }
  }

  lemma RowSingleScalar(a: Value, s: Value)
    requires s.Scalar?
    ensures Row(a, [s]) == [Pairing(a.GetLabels(), a, s)]
  {
  }

  lemma {:induction false} RowScalarLeft(s: Value, rights: seq<Value>, k: nat)
    requires k <= |rights| && s.Scalar?
    ensures |Row(s, rights[k..])| == |rights| - k
    ensures forall i :: 0 <= i < |rights| - k ==>
      Row(s, rights[k..])[i] == Pairing(rights[k + i].GetLabels(), s, rights[k + i])
    decreases |rights| - k
  {
    if k < |rights| {
      RowScalarLeft(s, rights, k + 1);
      assert rights[k..][1..] == rights[k + 1..];
    }
  }

  /** An expression without variables evaluates to one scalar. */
  lemma {:induction false} ClosedWalk(e: Expr, vars: Vars, x: real)
    requires !Open(e)
    ensures Walk(e, vars) == [Scalar(At(e, x))]
  {
    match e
    case Literal(_) =>
    case Var(_) =>
    case Binary(op, l, r) =>
      ClosedWalk(l, vars, x);
      ClosedWalk(r, vars, x);
      var a, b := Scalar(At(l, x)), Scalar(At(r, x));
      RowSingleScalar(a, b);
      assert [a][1..] == [];
      assert Pairs([a], [b]) == [Pairing(map[], a, b)];
      assert Walk(e, vars)[0] == Scalar(At(e, x));
    case Not(a) =>
      ClosedWalk(a, vars, x);
  }

  /** At ignores its argument on an expression without variables. */
  lemma {:induction false} ClosedAt(e: Expr, x: real, y: real)
    requires !Open(e)
    ensures At(e, x) == At(e, y)
  {
    match e
    case Literal(_) =>
    case Var(_) =>
    case Binary(_, l, r) => ClosedAt(l, x, y); ClosedAt(r, x, y);
    case Not(a) => ClosedAt(a, x, y);
  }

  lemma CombineScalarRight(op: Op, l: Expr, r: Expr, v: Value, z: real)
    requires !Open(r)
    ensures Combine(op, Pairing(v.GetLabels(), Pointwise(l, v), Scalar(At(r, z)))) == Pointwise(Binary(op, l, r), v)
  {
    if v.Series? {
      var left, right := SeriesLeft(op, Pointwise(l, v).points, At(r, z)), Pointwise(Binary(op, l, r), v).points;
      forall i | 0 <= i < |v.points| ensures left[i] == right[i] {
        var x := v.points[i].x;
        ClosedAt(r, x, z);
      }
      assert left == right;
    } else if !v.NoData? {
      ClosedAt(r, v.x, z);
    }
  }

  lemma CombineScalarLeft(op: Op, l: Expr, r: Expr, v: Value, z: real)
    requires !Open(l)
    ensures Combine(op, Pairing(v.GetLabels(), Scalar(At(l, z)), Pointwise(r, v))) == Pointwise(Binary(op, l, r), v)
  {
    if v.Series? {
      var left, right := SeriesRight(op, At(l, z), Pointwise(r, v).points), Pointwise(Binary(op, l, r), v).points;
      forall i | 0 <= i < |v.points| ensures left[i] == right[i] {
        var x := v.points[i].x;
        ClosedAt(l, x, z);
      }
      assert left == right;
    } else if !v.NoData? {
      ClosedAt(l, v.x, z);
    }
  }

  function AllJoined(op: Op, l: Expr, r: Expr, points: seq<Point>): (joined: seq<Point>)
    ensures |joined| == |points|
  {
    seq(|points|, i requires 0 <= i < |points| => Joined(op, l, r, points, i))
  }

  /** What joining a value with itself yields. */
  function SelfJoin(op: Op, l: Expr, r: Expr, v: Value): Value {
    match v
    case Series(ls, ps) => Series(ls, AllJoined(op, l, r, ps))
    case _ => Pointwise(Binary(op, l, r), v)
  }

  lemma JoinedSamples(op: Op, l: Expr, r: Expr, points: seq<Point>)
    ensures SeriesSeries(op, Mapped(l, points), Mapped(r, points)) == AllJoined(op, l, r, points)
  {
    var a, b := Mapped(l, points), Mapped(r, points);
    SeriesSeriesAligned(op, a, b, 0);
    assert a[0..] == a;
    forall i | 0 <= i < |points| ensures SeriesSeries(op, a, b)[i] == Joined(op, l, r, points, i) {
      LatestMapped(r, points, i);
      assert SeriesSeries(op, a[0..], b)[i - 0] == Point(a[i].time, BinaryOp(op, a[i].x, Latest(b, i)));
    }
  }

  lemma CombineBoth(op: Op, l: Expr, r: Expr, v: Value)
    ensures Combine(op, Pairing(v.GetLabels(), Pointwise(l, v), Pointwise(r, v))) == SelfJoin(op, l, r, v)
  {
    if v.Series? {
      JoinedSamples(op, l, r, v.points);
    }
  }

  lemma SelfJoinAgrees(op: Op, l: Expr, r: Expr, v: Value)
    requires Open(l) && Open(r) && (v.Series? ==> RepeatsAgree(Binary(op, l, r), v.points))
    ensures SelfJoin(op, l, r, v) == Pointwise(Binary(op, l, r), v)
  {
    if v.Series? {
      assert SelfJoin(op, l, r, v).points == Pointwise(Binary(op, l, r), v).points;
    }
  }

  lemma PointwiseLabels(e: Expr, vs: seq<Value>)
    ensures forall i :: 0 <= i < |vs| ==>
      Pointwise(e, vs[i]).GetLabels() == vs[i].GetLabels() && Pointwise(e, vs[i]).NoData? == vs[i].NoData?
  {
  }

  /**
   * An expression over one variable evaluates value by value and sample by sample: always when
   * no operator joins the variable with itself, and otherwise when no two label sets of the
   * input are comparable and repeated times make no difference. A leading "no data" hides all
   * other values.
   */
  lemma {:induction false} PointwiseWalk(e: Expr, name: string, vars: Vars)
    requires OnlyVar(e, name) && Open(e)
    requires NoDataAlone(Lookup(vars, name).values) && AllRepeatsAgree(e, Lookup(vars, name).values)
    requires Joins(e) ==> Incomparable(Lookup(vars, name).values)
    ensures Walk(e, vars) == PointwiseAll(e, Lookup(vars, name).values)
    decreases e, 1
  {
    var vs := Lookup(vars, name).values;
    match e
    case Var(_) =>
      forall i | 0 <= i < |vs| ensures Pointwise(e, vs[i]) == vs[i] {
        if vs[i].Series? {
          assert Pointwise(e, vs[i]).points == vs[i].points;
        }
      }
    case Binary(op, l, r) =>
      PointwiseBinary(op, l, r, name, vars);
    case Not(a) =>
      PointwiseWalk(a, name, vars);
      forall i | 0 <= i < |vs| ensures Negate(Pointwise(a, vs[i])) == Pointwise(e, vs[i]) {
        if vs[i].Series? {
          assert Negate(Pointwise(a, vs[i])).points == Pointwise(e, vs[i]).points;
        }
      }
    case _ =>
  }

  lemma {:induction false} PointwiseBinary(op: Op, l: Expr, r: Expr, name: string, vars: Vars)
    requires OnlyVar(l, name) && OnlyVar(r, name) && (Open(l) || Open(r))
    requires NoDataAlone(Lookup(vars, name).values) && AllRepeatsAgree(Binary(op, l, r), Lookup(vars, name).values)
    requires Joins(Binary(op, l, r)) ==> Incomparable(Lookup(vars, name).values)
    ensures Walk(Binary(op, l, r), vars) == PointwiseAll(Binary(op, l, r), Lookup(vars, name).values)
    decreases Binary(op, l, r), 0
  {
    var vs := Lookup(vars, name).values;
    if Open(l) { PointwiseWalk(l, name, vars); } else { ClosedWalk(l, vars, 0.0); }
    if Open(r) { PointwiseWalk(r, name, vars); } else { ClosedWalk(r, vars, 0.0); }
    if vs == [] {
    } else if !Open(r) {
      UnionScalarRight(l, vs, Scalar(At(r, 0.0)));
      forall i | 0 <= i < |vs| ensures Walk(Binary(op, l, r), vars)[i] == Pointwise(Binary(op, l, r), vs[i]) {
        CombineScalarRight(op, l, r, vs[i], 0.0);
      }
    } else if !Open(l) {
      UnionScalarLeft(Scalar(At(l, 0.0)), r, vs);
      forall i | 0 <= i < |vs| ensures Walk(Binary(op, l, r), vars)[i] == Pointwise(Binary(op, l, r), vs[i]) {
        CombineScalarLeft(op, l, r, vs[i], 0.0);
      }
    } else {
      UnionDiagonal(l, r, vs);
      forall i | 0 <= i < |vs| ensures Walk(Binary(op, l, r), vars)[i] == Pointwise(Binary(op, l, r), vs[i]) {
        CombineBoth(op, l, r, vs[i]);
        SelfJoinAgrees(op, l, r, vs[i]);
      }
    }
  }

  lemma UnionIsPairs(lefts: seq<Value>, rights: seq<Value>)
    requires lefts != [] && rights != [] && !lefts[0].NoData? && !rights[0].NoData? && Pairs(lefts, rights) != []
    ensures Union(lefts, rights) == Pairs(lefts, rights)
  {
  }

  lemma UnionScalarRight(l: Expr, vs: seq<Value>, s: Value)
    requires vs != [] && NoDataAlone(vs) && s.Scalar?
    ensures |Union(PointwiseAll(l, vs), [s])| == |vs|
    ensures forall i :: 0 <= i < |vs| ==>
      Union(PointwiseAll(l, vs), [s])[i] == Pairing(vs[i].GetLabels(), Pointwise(l, vs[i]), s)
  {
    var wl := PointwiseAll(l, vs);
    PointwiseLabels(l, vs);
    PairsScalarRight(wl, s, 0);
    assert wl[0..] == wl;
    if !vs[0].NoData? {
      UnionIsPairs(wl, [s]);
    }
  }

  lemma PairsOneLeft(s: Value, rights: seq<Value>)
    ensures Pairs([s], rights) == Row(s, rights)
  {
  }

  lemma UnionScalarLeft(s: Value, r: Expr, vs: seq<Value>)
    requires vs != [] && NoDataAlone(vs) && s.Scalar?
    ensures |Union([s], PointwiseAll(r, vs))| == |vs|
    ensures forall i :: 0 <= i < |vs| ==>
      Union([s], PointwiseAll(r, vs))[i] == Pairing(vs[i].GetLabels(), s, Pointwise(r, vs[i]))
  {
    var wr := PointwiseAll(r, vs);
    PointwiseLabels(r, vs);
    RowScalarLeft(s, wr, 0);
    assert wr[0..] == wr;
    PairsOneLeft(s, wr);
    if !vs[0].NoData? {
      UnionIsPairs([s], wr);
    }
  }

  lemma UnionDiagonal(l: Expr, r: Expr, vs: seq<Value>)
    requires vs != [] && NoDataAlone(vs) && Incomparable(vs)
    ensures |Union(PointwiseAll(l, vs), PointwiseAll(r, vs))| == |vs|
    ensures forall i :: 0 <= i < |vs| ==>
      Union(PointwiseAll(l, vs), PointwiseAll(r, vs))[i] == Pairing(vs[i].GetLabels(), Pointwise(l, vs[i]), Pointwise(r, vs[i]))
  {
    var wl, wr := PointwiseAll(l, vs), PointwiseAll(r, vs);
    PointwiseLabels(l, vs);
    PointwiseLabels(r, vs);
    PairsDiagonal(wl, wr, 0);
    assert wl[0..] == wl;
    if !vs[0].NoData? {
      UnionIsPairs(wl, wr);
    }
  }

  lemma {:induction false} RowLength(a: Value, rights: seq<Value>, i: nat)
    requires i < |rights| && JoinLabels(a.GetLabels(), rights[i].GetLabels()).Some?
    ensures |Row(a, rights)| >= 1
    ensures (exists j :: 0 <= j < |rights| && j != i && JoinLabels(a.GetLabels(), rights[j].GetLabels()).Some?) ==>
      |Row(a, rights)| >= 2
  {
    if j :| 0 <= j < |rights| && j != i && JoinLabels(a.GetLabels(), rights[j].GetLabels()).Some? {
      if i == 0 {
        RowLength(a, rights[1..], j - 1);
      } else if j == 0 {
        RowLength(a, rights[1..], i - 1);
      } else {
        assert rights[1..][j - 1] == rights[j];
        RowLength(a, rights[1..], i - 1);
      }
    } else if i > 0 {
      RowLength(a, rights[1..], i - 1);
    }
  }

  lemma {:induction false} PairsLength(lefts: seq<Value>, rights: seq<Value>, k: nat)
    requires k <= |lefts| == |rights|
    requires forall i :: 0 <= i < |lefts| ==> lefts[i].GetLabels() == rights[i].GetLabels()
    ensures |Pairs(lefts[k..], rights)| >= |lefts| - k
    ensures (exists i, j :: k <= i < |lefts| && 0 <= j < |lefts| && i != j &&
               JoinLabels(lefts[i].GetLabels(), rights[j].GetLabels()).Some?) ==> |Pairs(lefts[k..], rights)| > |lefts| - k
    decreases |lefts| - k
  {
    if k < |lefts| {
      RowLength(lefts[k], rights, k);
      PairsLength(lefts, rights, k + 1);
      assert lefts[k..][1..] == lefts[k + 1..];
    }
  }

  /** Comparable label sets multiply the values. */
  lemma ComparableJoinMore(l: Expr, r: Expr, vs: seq<Value>)
    requires vs != [] && NoDataAlone(vs) && !Incomparable(vs)
    ensures |Union(PointwiseAll(l, vs), PointwiseAll(r, vs))| > |vs|
  {
    var wl, wr := PointwiseAll(l, vs), PointwiseAll(r, vs);
    PointwiseLabels(l, vs);
    PointwiseLabels(r, vs);
    PairsLength(wl, wr, 0);
    assert wl[0..] == wl;
    var i, j :| 0 <= i < |vs| && 0 <= j < |vs| && i != j && JoinLabels(vs[i].GetLabels(), vs[j].GetLabels()).Some?;
    assert JoinLabels(wl[i].GetLabels(), wr[j].GetLabels()).Some?;
    UnionIsPairs(wl, wr);
  }

  /** Both operands are open and neither joins the variable with itself any further. */
  predicate SimpleJoin(l: Expr, r: Expr, name: string) {
    && OnlyVar(l, name) && Open(l) && !Joins(l)
    && OnlyVar(r, name) && Open(r) && !Joins(r)
  }

  lemma {:induction false} NoJoinsAgree(e: Expr, points: seq<Point>)
    requires !Joins(e)
    ensures RepeatsAgree(e, points)
  {
    match e
    case Literal(_) =>
    case Var(_) =>
    case Not(a) => NoJoinsAgree(a, points);
    case Binary(_, l, r) => NoJoinsAgree(l, points); NoJoinsAgree(r, points);
  }

  lemma OperandsPointwise(l: Expr, r: Expr, name: string, vars: Vars)
    requires SimpleJoin(l, r, name) && NoDataAlone(Lookup(vars, name).values)
    ensures Walk(l, vars) == PointwiseAll(l, Lookup(vars, name).values)
    ensures Walk(r, vars) == PointwiseAll(r, Lookup(vars, name).values)
  {
    forall points: seq<Point> ensures RepeatsAgree(l, points) && RepeatsAgree(r, points) {
      NoJoinsAgree(l, points);
      NoJoinsAgree(r, points);
    }
    PointwiseWalk(l, name, vars);
    PointwiseWalk(r, name, vars);
  }

  /** With incomparable label sets each value is joined with itself alone. */
  lemma JoinedWithItself(op: Op, l: Expr, r: Expr, name: string, vars: Vars)
    requires SimpleJoin(l, r, name) && NoDataAlone(Lookup(vars, name).values) && Incomparable(Lookup(vars, name).values)
    ensures |Walk(Binary(op, l, r), vars)| == |Lookup(vars, name).values|
    ensures forall i :: 0 <= i < |Lookup(vars, name).values| ==>
      Walk(Binary(op, l, r), vars)[i] == SelfJoin(op, l, r, Lookup(vars, name).values[i])
  {
    var vs := Lookup(vars, name).values;
    OperandsPointwise(l, r, name, vars);
    if vs != [] {
      UnionDiagonal(l, r, vs);
      forall i | 0 <= i < |vs| ensures Walk(Binary(op, l, r), vars)[i] == SelfJoin(op, l, r, vs[i]) {
        CombineBoth(op, l, r, vs[i]);
      }
    }
  }

  /**
   * An operator that joins the variable with itself yields exactly one value per input value
   * if and only if no two label sets of the input are comparable; otherwise it yields more.
   */
  lemma JoinYieldsOnePerValue(op: Op, l: Expr, r: Expr, name: string, vars: Vars)
    requires SimpleJoin(l, r, name) && NoDataAlone(Lookup(vars, name).values)
    ensures |Walk(Binary(op, l, r), vars)| >= |Lookup(vars, name).values|
    ensures |Walk(Binary(op, l, r), vars)| == |Lookup(vars, name).values| <==>
            Incomparable(Lookup(vars, name).values)
  {
    var vs := Lookup(vars, name).values;
    if Incomparable(vs) {
      JoinedWithItself(op, l, r, name, vars);
    } else {
      OperandsPointwise(l, r, name, vars);
      ComparableJoinMore(l, r, vs);
    }
  }

  /** A leading "no data" is all that an operation on the variable and a literal leaves. */
  lemma NoDataHides(op: Op, name: string, n: int, vars: Vars)
    requires Lookup(vars, name).values != [] && Lookup(vars, name).values[0].NoData?
    ensures Walk(Binary(op, Var(name), Literal(n)), vars) == [NoData]
  {
    var vs := Lookup(vars, name).values;
    assert Union(vs, [Scalar(Millionths(n))]) == [Pairing(map[], vs[0], Scalar(Millionths(n)))];
  }

  // ---------------------------------------------------------------- where the labels of a result come from

  /** Every value of ws bears the labels of some value of vs. */
  ghost predicate LabelsFrom(ws: seq<Value>, vs: seq<Value>) {
    forall w :: w in ws ==> LabelledLike(w, vs)
  }

  ghost predicate LabelledLike(w: Value, vs: seq<Value>) {
    exists v :: v in vs && w.GetLabels() == v.GetLabels()
  }

  lemma {:induction false} RowFrom(a: Value, rights: seq<Value>)
    ensures forall p :: p in Row(a, rights) ==> PairFrom(p, [a], rights)
  {
    if rights != [] {
      RowFrom(a, rights[1..]);
      assert rights[0] in rights && forall b :: b in rights[1..] ==> b in rights;
    }
  }

  /** A pair of values of the two lists, labelled like one of them. */
  predicate PairFrom(p: Pairing, lefts: seq<Value>, rights: seq<Value>) {
    p.a in lefts && p.b in rights && (p.labels == p.a.GetLabels() || p.labels == p.b.GetLabels())
  }

  lemma {:induction false} PairsFrom(lefts: seq<Value>, rights: seq<Value>)
    ensures forall p :: p in Pairs(lefts, rights) ==> PairFrom(p, lefts, rights)
  {
    if lefts != [] {
      RowFrom(lefts[0], rights);
      PairsFrom(lefts[1..], rights);
      assert lefts[0] in lefts && forall a :: a in lefts[1..] ==> a in lefts;
    }
  }

  lemma CombineFrom(op: Op, p: Pairing)
    requires p.labels == p.a.GetLabels() || p.labels == p.b.GetLabels()
    ensures Combine(op, p).GetLabels() == p.a.GetLabels() || Combine(op, p).GetLabels() == p.b.GetLabels()
  {
  }

  lemma CombinedFrom(op: Op, ps: seq<Pairing>, lefts: seq<Value>, rights: seq<Value>, vs: seq<Value>)
    requires forall p :: p in ps ==> PairFrom(p, lefts, rights)
    requires LabelsFrom(lefts, vs) && LabelsFrom(rights, vs)
    ensures LabelsFrom(CombineAll(op, ps), vs)
  {
    forall w | w in CombineAll(op, ps) ensures LabelledLike(w, vs) {
      var i :| 0 <= i < |ps| && w == Combine(op, ps[i]);
      assert PairFrom(ps[i], lefts, rights);
      assert LabelledLike(ps[i].a, vs) && LabelledLike(ps[i].b, vs);
      CombineFrom(op, ps[i]);
    }
  }

  lemma PointwiseFrom(e: Expr, vs: seq<Value>)
    ensures LabelsFrom(PointwiseAll(e, vs), vs)
  {
    forall w | w in PointwiseAll(e, vs) ensures LabelledLike(w, vs) {
      var i :| 0 <= i < |vs| && w == Pointwise(e, vs[i]);
      assert vs[i] in vs;
    }
  }

  /** Joining a variable with itself invents no labels. */
  lemma JoinKeepsLabels(op: Op, l: Expr, r: Expr, name: string, vars: Vars)
    requires SimpleJoin(l, r, name) && NoDataAlone(Lookup(vars, name).values)
    ensures LabelsFrom(Walk(Binary(op, l, r), vars), Lookup(vars, name).values)
  {
    var vs := Lookup(vars, name).values;
    var wl, wr := PointwiseAll(l, vs), PointwiseAll(r, vs);
    OperandsPointwise(l, r, name, vars);
    PointwiseFrom(l, vs);
    PointwiseFrom(r, vs);
    PointwiseLabels(l, vs);
    PointwiseLabels(r, vs);
    UnionFrom(wl, wr);
    CombinedFrom(op, Union(wl, wr), wl, wr, vs);
  }

  lemma UnionFrom(lefts: seq<Value>, rights: seq<Value>)
    requires |lefts| == |rights| && forall i :: 0 <= i < |lefts| ==> lefts[i].GetLabels() == rights[i].GetLabels()
    ensures forall p :: p in Union(lefts, rights) ==> PairFrom(p, lefts, rights)
  {
    PairsFrom(lefts, rights);
    if lefts != [] {
      assert Pairs(lefts, rights) != [] by {
        PairsLength(lefts, rights, 0);
        assert lefts[0..] == lefts;
      }
    }
  }
}
