/**
 * Threshold commands (pkg/expr/threshold.go): a comparison function and its arguments are
 * compiled to a math expression whose literals carry six decimals, and the expression is
 * evaluated over the values of one variable.
 */
module Threshold {
  import opened Basics
  import opened MathExp

  const IS_ABOVE := "gt"
  const IS_BELOW := "lt"
  const IS_WITHIN_RANGE := "within_range"
  const IS_OUTSIDE_RANGE := "outside_range"

  datatype ThresholdCommand = ThresholdCommand(
    referenceVar: string, refID: string, thresholdFunc: string, conditions: seq<real>, invert: bool)
  {
    /** What NewThresholdCommand establishes. */
    predicate Valid() {
      Arity(thresholdFunc).Some? && |conditions| >= Arity(thresholdFunc).value
    }
  }

  /** The number of arguments a supported function reads; None for an unsupported name. */
  function Arity(name: string): Option<nat> {
    if name == IS_ABOVE || name == IS_BELOW then Some(1)
    else if name == IS_WITHIN_RANGE || name == IS_OUTSIDE_RANGE then Some(2)
    else None
  }

  function NewThresholdCommand(refID: string, referenceVar: string, name: string, conditions: seq<real>)
    : (r: Result<ThresholdCommand, Error>)
    ensures r.Ok? <==>
      || (name in {"gt", "lt"} && |conditions| >= 1)
      || (name in {"within_range", "outside_range"} && |conditions| >= 2)
    ensures r.Ok? ==> r.value.Valid() && r.value == ThresholdCommand(referenceVar, refID, name, conditions, false)
    ensures r.Err? ==> r.error == if Arity(name).None? then UnknownThresholdFunc(name) else WrongArgumentCount(|conditions|, Arity(name).value)
  {
    match Arity(name)
    case None => Err(UnknownThresholdFunc(name))
    case Some(need) =>
      if |conditions| < need then Err(WrongArgumentCount(|conditions|, need))
      else Ok(ThresholdCommand(referenceVar, refID, name, conditions, false))
  }

  /** The literal "%f" prints: the nearest whole count of millionths, ties to even. */
  function Printed(x: real): int {
    var y := x * 1000000.0;
    var low := y.Floor;
    var rest := y - low as real;
    if rest < 0.5 then low
    else if rest > 0.5 then low + 1
    else if low % 2 == 0 then low
    else low + 1
  }

  /** One comparison of the variable with a printed argument. */
  function Against(referenceVar: string, op: Op, arg: real): (e: Expr)
    ensures OnlyVar(e, referenceVar) && Open(e) && e.Binary? && !Joins(e)
    ensures forall x :: At(e, x) == BinaryOp(op, x, Millionths(Printed(arg)))
  {
    Binary(op, Var(referenceVar), Literal(Printed(arg)))
  }

  /** The expression before inversion: the four arms of the switch. */
  function Comparison(referenceVar: string, name: string, args: seq<real>): (e: Expr)
    requires Arity(name).Some? && |args| >= Arity(name).value
    ensures OnlyVar(e, referenceVar) && Open(e) && e.Binary?
    ensures Joins(e) <==> name == IS_WITHIN_RANGE || name == IS_OUTSIDE_RANGE
    ensures Joins(e) ==> !Joins(e.left) && !Joins(e.right) && Open(e.left) && Open(e.right)
  {
    if name == IS_ABOVE then Against(referenceVar, Greater, args[0])
    else if name == IS_BELOW then Against(referenceVar, Less, args[0])
    else if name == IS_WITHIN_RANGE then
      Binary(And, Against(referenceVar, Greater, args[0]), Against(referenceVar, Less, args[1]))
    else
      Binary(Or, Against(referenceVar, Less, args[0]), Against(referenceVar, Greater, args[1]))
  }

  function CreateMathExpression(referenceVar: string, name: string, args: seq<real>, invert: bool)
    : Result<Expr, Error>
    requires Arity(name).Some? ==> |args| >= Arity(name).value
  {
    if Arity(name).None? then Err(UnknownThresholdFunc(name))
    else
      var exp := Comparison(referenceVar, name, args);
      Ok(if invert then Not(exp) else exp)
  }

  /** ThresholdCommand.Execute: compile, then evaluate against the variables. */
  function Execute(tc: ThresholdCommand, vars: Vars): Result<seq<Value>, Error>
    requires Arity(tc.thresholdFunc).Some? ==> tc.Valid()
  {
    match CreateMathExpression(tc.referenceVar, tc.thresholdFunc, tc.conditions, tc.invert)
    case Err(e) => Err(e)
    case Ok(exp) => Ok(Walk(exp, vars))
  }

  // ---------------------------------------------------------------- what a threshold means

  /** The comparison the user asked for, before any printing. */
  predicate Compare(name: string, args: seq<real>, x: real)
    requires Arity(name).Some? && |args| >= Arity(name).value
  {
    if name == IS_ABOVE then x > args[0]
    else if name == IS_BELOW then x < args[0]
    else if name == IS_WITHIN_RANGE then args[0] < x && x < args[1]
    else x < args[0] || x > args[1]
  }

  /** The four comparisons by the names they have in a query. */
  lemma CompareMeaning(args: seq<real>, x: real)
    requires |args| >= 2
    ensures Compare("gt", args, x) <==> x > args[0]
    ensures Compare("lt", args, x) <==> x < args[0]
    ensures Compare("within_range", args, x) <==> args[0] < x < args[1]
    ensures Compare("outside_range", args, x) <==> x < args[0] || args[1] < x
  {
  }

  predicate Direct(tc: ThresholdCommand, x: real)
    requires tc.Valid()
  {
    Compare(tc.thresholdFunc, tc.conditions, x) != tc.invert
  }

  function PrintedArgs(args: seq<real>): seq<real> {
    seq(|args|, i requires 0 <= i < |args| => Millionths(Printed(args[i])))
  }

  /** The comparison the compiled expression makes: the same one, on the printed arguments. */
  predicate Compiled(tc: ThresholdCommand, x: real)
    requires tc.Valid()
  {
    Compare(tc.thresholdFunc, PrintedArgs(tc.conditions), x) != tc.invert
  }

  predicate IsRange(tc: ThresholdCommand) {
    tc.thresholdFunc == IS_WITHIN_RANGE || tc.thresholdFunc == IS_OUTSIDE_RANGE
  }

  /** The outcome of a threshold for one value: the same labels, and 1 or 0 for each sample. */
  function Verdict(tc: ThresholdCommand, v: Value): Value
    requires tc.Valid()
  {
    match v
    case Scalar(x) => Scalar(Truth(Compiled(tc, x)))
    case Number(ls, x) => Number(ls, Truth(Compiled(tc, x)))
    case Series(ls, ps) =>
      Series(ls, seq(|ps|, i requires 0 <= i < |ps| => Point(ps[i].time, Truth(Compiled(tc, ps[i].x)))))
    case NoData => NoData
  }

  /** A verdict is 1 where the comparison with the printed arguments holds and 0 where not, or the other way round if inverted. */
  lemma VerdictMeaning(tc: ThresholdCommand, v: Value)
    requires tc.Valid()
    ensures Verdict(tc, v).GetLabels() == v.GetLabels()
    ensures v.NoData? <==> Verdict(tc, v).NoData?
    ensures v.Number? ==> Verdict(tc, v) == Number(v.labels, if Compiled(tc, v.x) then 1.0 else 0.0)
    ensures v.Scalar? ==> Verdict(tc, v) == Scalar(if Compiled(tc, v.x) then 1.0 else 0.0)
    ensures v.Series? ==> Verdict(tc, v).Series? && |Verdict(tc, v).points| == |v.points|
    ensures v.Series? ==>
      forall i :: 0 <= i < |v.points| ==> Verdict(tc, v).points[i] == Point(v.points[i].time, if Compiled(tc, v.points[i].x) then 1.0 else 0.0)
    ensures forall x :: Compiled(tc, x) <==> (Compare(tc.thresholdFunc, PrintedArgs(tc.conditions), x) <==> !tc.invert)
  {
  }

  function Verdicts(tc: ThresholdCommand, vs: seq<Value>): (r: seq<Value>)
    requires tc.Valid()
    ensures |r| == |vs|
  {
    seq(|vs|, i requires 0 <= i < |vs| => Verdict(tc, vs[i]))
  }

  /** One verdict per value, in the order of the values. */
  lemma VerdictsMeaning(tc: ThresholdCommand, vs: seq<Value>, i: nat)
    requires tc.Valid() && i < |vs|
    ensures |Verdicts(tc, vs)| == |vs| && Verdicts(tc, vs)[i].GetLabels() == vs[i].GetLabels()
    ensures vs[i].Number? ==> Verdicts(tc, vs)[i] == Number(vs[i].labels, if Compiled(tc, vs[i].x) then 1.0 else 0.0)
    ensures vs[i].Series? ==> Verdicts(tc, vs)[i] == Verdict(tc, vs[i])
    ensures vs[i] == NoData ==> Verdicts(tc, vs)[i] == NoData
  {
  }

  /** A range comparison whose first half sees x and whose second half sees y. */
  predicate Twofold(tc: ThresholdCommand, x: real, y: real)
    requires tc.Valid() && IsRange(tc)
  {
    var args := PrintedArgs(tc.conditions);
    (if tc.thresholdFunc == IS_WITHIN_RANGE then args[0] < x && y < args[1] else x < args[0] || y > args[1]) != tc.invert
  }

  /** Taking the last sample of the same time for the second half changes no verdict. */
  predicate SamplesAgree(tc: ThresholdCommand, points: seq<Point>)
    requires tc.Valid() && IsRange(tc)
  {
    forall i :: 0 <= i < |points| ==> Twofold(tc, points[i].x, Latest(points, i)) == Compiled(tc, points[i].x)
  }

  /** What a range function makes of one value; samples that share a time are mixed. */
  function TwofoldVerdict(tc: ThresholdCommand, v: Value): Value
    requires tc.Valid() && IsRange(tc)
  {
    match v
    case Series(ls, ps) =>
      Series(ls, seq(|ps|, i requires 0 <= i < |ps| => Point(ps[i].time, Truth(Twofold(tc, ps[i].x, Latest(ps, i))))))
    case _ => Verdict(tc, v)
  }

  /**
   * The inputs on which a threshold decides each value by itself: "no data" does not precede
   * other values and, for the two range functions, no label sets are comparable and no repeated
   * time makes a difference.
   */
  ghost predicate Separable(tc: ThresholdCommand, vs: seq<Value>)
    requires tc.Valid()
  {
    && NoDataAlone(vs)
    && (IsRange(tc) ==> Incomparable(vs) && forall i :: 0 <= i < |vs| && vs[i].Series? ==> SamplesAgree(tc, vs[i].points))
  }

  function Compile(tc: ThresholdCommand): (e: Expr)
    requires tc.Valid()
    ensures CreateMathExpression(tc.referenceVar, tc.thresholdFunc, tc.conditions, tc.invert) == Ok(e)
    ensures OnlyVar(e, tc.referenceVar) && Open(e) && (Joins(e) <==> IsRange(tc))
  {
    CreateMathExpression(tc.referenceVar, tc.thresholdFunc, tc.conditions, tc.invert).value
  }

  lemma CompiledAt(tc: ThresholdCommand, x: real)
    requires tc.Valid()
    ensures At(Compile(tc), x) == Truth(Compiled(tc, x))
  {
    var e := Comparison(tc.referenceVar, tc.thresholdFunc, tc.conditions);
    assert At(e, x) == Truth(Compare(tc.thresholdFunc, PrintedArgs(tc.conditions), x));
  }

  lemma CompiledPointwise(tc: ThresholdCommand, v: Value)
    requires tc.Valid()
    ensures Pointwise(Compile(tc), v) == Verdict(tc, v)
  {
    if v.Series? {
      forall i | 0 <= i < |v.points| ensures Pointwise(Compile(tc), v).points[i] == Verdict(tc, v).points[i] {
        CompiledAt(tc, v.points[i].x);
      }
      assert Pointwise(Compile(tc), v).points == Verdict(tc, v).points;
    } else if !v.NoData? {
      CompiledAt(tc, v.x);
    }
  }

  /** The expression of a range function before inversion, and what makes it a join. */
  function Range(tc: ThresholdCommand): (e: Expr)
    requires tc.Valid() && IsRange(tc)
    ensures e.Binary? && SimpleJoin(e.left, e.right, tc.referenceVar)
    ensures Compile(tc) == if tc.invert then Not(e) else e
    ensures forall x :: At(e, x) == Truth(Compiled(tc, x) != tc.invert)
    ensures forall x, y :: BinaryOp(e.op, At(e.left, x), At(e.right, y)) == Truth(Twofold(tc, x, y) != tc.invert)
  {
    Comparison(tc.referenceVar, tc.thresholdFunc, tc.conditions)
  }

  lemma SamplesAgreeMeaning(tc: ThresholdCommand, points: seq<Point>)
    requires tc.Valid() && IsRange(tc)
    ensures RepeatsAgree(Compile(tc), points) <==> SamplesAgree(tc, points)
  {
    var e := Range(tc);
    NoJoinsAgree(e.left, points);
    NoJoinsAgree(e.right, points);
    forall i | 0 <= i < |points|
      ensures Joined(e.op, e.left, e.right, points, i) == Point(points[i].time, At(e, points[i].x)) <==>
              Twofold(tc, points[i].x, Latest(points, i)) == Compiled(tc, points[i].x)
    {
      assert Truth(Twofold(tc, points[i].x, Latest(points, i)) != tc.invert) == Joined(e.op, e.left, e.right, points, i).x;
    }
  }

  /** A threshold judges every value on its own whenever its input is separable. */
  lemma ExecuteIsPointwise(tc: ThresholdCommand, vars: Vars)
    requires tc.Valid() && Separable(tc, Lookup(vars, tc.referenceVar).values)
    ensures Execute(tc, vars) == Ok(Verdicts(tc, Lookup(vars, tc.referenceVar).values))
  {
    var vs := Lookup(vars, tc.referenceVar).values;
    forall i | 0 <= i < |vs| && vs[i].Series? ensures RepeatsAgree(Compile(tc), vs[i].points) {
      if IsRange(tc) {
        SamplesAgreeMeaning(tc, vs[i].points);
      } else {
        NoJoinsAgree(Compile(tc), vs[i].points);
      }
    }
    PointwiseWalk(Compile(tc), tc.referenceVar, vars);
    forall i | 0 <= i < |vs| ensures Pointwise(Compile(tc), vs[i]) == Verdict(tc, vs[i]) {
      CompiledPointwise(tc, vs[i]);
    }
    assert PointwiseAll(Compile(tc), vs) == Verdicts(tc, vs);
  }

  lemma SelfJoinVerdict(tc: ThresholdCommand, v: Value)
    requires tc.Valid() && IsRange(tc)
    ensures
      var e := Range(tc);
      (if tc.invert then Negate(SelfJoin(e.op, e.left, e.right, v)) else SelfJoin(e.op, e.left, e.right, v)) == TwofoldVerdict(tc, v)
  {
    var e := Range(tc);
    var joined := SelfJoin(e.op, e.left, e.right, v);
    var out := if tc.invert then Negate(joined) else joined;
    if v.Series? {
      forall i | 0 <= i < |v.points| ensures out.points[i] == TwofoldVerdict(tc, v).points[i] {
        assert joined.points[i].x == Truth(Twofold(tc, v.points[i].x, Latest(v.points, i)) != tc.invert);
      }
      assert out.points == TwofoldVerdict(tc, v).points;
    }
  }

  /** What a range function makes of values with incomparable labels, repeated times included. */
  lemma RangeIsTwofold(tc: ThresholdCommand, vars: Vars)
    requires tc.Valid() && IsRange(tc)
    requires NoDataAlone(Lookup(vars, tc.referenceVar).values) && Incomparable(Lookup(vars, tc.referenceVar).values)
    ensures Execute(tc, vars).Ok? && |Execute(tc, vars).value| == |Lookup(vars, tc.referenceVar).values|
    ensures forall i :: 0 <= i < |Lookup(vars, tc.referenceVar).values| ==>
      Execute(tc, vars).value[i] == TwofoldVerdict(tc, Lookup(vars, tc.referenceVar).values[i])
  {
    var vs, e := Lookup(vars, tc.referenceVar).values, Range(tc);
    JoinedWithItself(e.op, e.left, e.right, tc.referenceVar, vars);
    forall i | 0 <= i < |vs| ensures Execute(tc, vars).value[i] == TwofoldVerdict(tc, vs[i]) {
      SelfJoinVerdict(tc, vs[i]);
    }
  }

  lemma LengthsDiffer<T>(a: seq<T>, b: seq<T>)
    requires |a| != |b|
    ensures multiset(a) != multiset(b)
  {
    assert |multiset(a)| == |a| && |multiset(b)| == |b|;
  }

  /** Lists that agree on all labels, which are different, hold the same values only if they are equal. */
  lemma ValuesDiffer(a: seq<Value>, b: seq<Value>, k: nat)
    requires k < |a| == |b| && a[k] != b[k]
    requires forall i :: 0 <= i < |a| ==> a[i].GetLabels() == b[i].GetLabels()
    requires forall i, j :: 0 <= i < j < |a| ==> a[i].GetLabels() != a[j].GetLabels()
    ensures multiset(a) != multiset(b)
  {
    forall j | 0 <= j < |a| ensures a[j] != b[k] {
      if j != k {
        assert a[j].GetLabels() != a[k].GetLabels();
      }
    }
    assert b[k] in multiset(b) && b[k] !in multiset(a);
  }

  lemma IncomparableIsDistinct(vs: seq<Value>)
    requires Incomparable(vs)
    ensures forall i, j :: 0 <= i < j < |vs| ==> vs[i].GetLabels() != vs[j].GetLabels()
  {
    forall i, j | 0 <= i < j < |vs| ensures vs[i].GetLabels() != vs[j].GetLabels() {
      assert JoinLabels(vs[i].GetLabels(), vs[j].GetLabels()) == None;
    }
  }

  lemma HiddenByNoData(tc: ThresholdCommand, vars: Vars)
    requires tc.Valid() && !NoDataAlone(Lookup(vars, tc.referenceVar).values)
    ensures Execute(tc, vars) == Ok([NoData])
  {
    var e := Comparison(tc.referenceVar, tc.thresholdFunc, tc.conditions);
    if IsRange(tc) {
      NoDataHides(e.left.op, tc.referenceVar, e.left.right.micros, vars);
      NoDataHides(e.right.op, tc.referenceVar, e.right.right.micros, vars);
      assert Walk(e.left, vars) == [NoData] && Walk(e.right, vars) == [NoData];
      assert Union([NoData], [NoData]) == [Pairing(map[], NoData, NoData)];
    } else {
      NoDataHides(e.op, tc.referenceVar, e.right.micros, vars);
    }
    assert Walk(e, vars) == [NoData];
    assert Walk(Not(e), vars) == [NoData];
  }

  lemma MixedSamplesShow(tc: ThresholdCommand, vars: Vars, k: nat)
    requires tc.Valid() && IsRange(tc)
    requires NoDataAlone(Lookup(vars, tc.referenceVar).values) && Incomparable(Lookup(vars, tc.referenceVar).values)
    requires k < |Lookup(vars, tc.referenceVar).values| && Lookup(vars, tc.referenceVar).values[k].Series?
    requires !SamplesAgree(tc, Lookup(vars, tc.referenceVar).values[k].points)
    ensures multiset(Execute(tc, vars).value) != multiset(Verdicts(tc, Lookup(vars, tc.referenceVar).values))
  {
    var vs := Lookup(vars, tc.referenceVar).values;
    RangeIsTwofold(tc, vars);
    IncomparableIsDistinct(vs);
    var points := vs[k].points;
    var i :| 0 <= i < |points| && Twofold(tc, points[i].x, Latest(points, i)) != Compiled(tc, points[i].x);
    assert TwofoldVerdict(tc, vs[k]).points[i] != Verdict(tc, vs[k]).points[i];
    ValuesDiffer(Execute(tc, vars).value, Verdicts(tc, vs), k);
  }

  /**
   * "One verdict per value", in order or as a multiset, holds for an input if and only if it is
   * separable: "no data" in front hides everything else, and the two range functions join their
   * variable with itself, so that comparable label sets multiply and samples of one time mix.
   */
  lemma PointwiseExactlyWhenSeparable(tc: ThresholdCommand, vars: Vars)
    requires tc.Valid()
    ensures Execute(tc, vars).Ok?
    ensures Execute(tc, vars) == Ok(Verdicts(tc, Lookup(vars, tc.referenceVar).values)) <==>
            Separable(tc, Lookup(vars, tc.referenceVar).values)
    ensures multiset(Execute(tc, vars).value) == multiset(Verdicts(tc, Lookup(vars, tc.referenceVar).values)) <==>
            Separable(tc, Lookup(vars, tc.referenceVar).values)
  {
    var vs := Lookup(vars, tc.referenceVar).values;
    if Separable(tc, vs) {
      ExecuteIsPointwise(tc, vars);
    } else if !NoDataAlone(vs) {
      HiddenByNoData(tc, vars);
      LengthsDiffer(Execute(tc, vars).value, Verdicts(tc, vs));
    } else if !Incomparable(vs) {
      var e := Range(tc);
      JoinYieldsOnePerValue(e.op, e.left, e.right, tc.referenceVar, vars);
      LengthsDiffer(Execute(tc, vars).value, Verdicts(tc, vs));
    } else {
      var k :| 0 <= k < |vs| && vs[k].Series? && !SamplesAgree(tc, vs[k].points);
      MixedSamplesShow(tc, vars, k);
    }
  }

  /** Whatever the input, a threshold invents no labels. */
  lemma ExecuteKeepsLabels(tc: ThresholdCommand, vars: Vars)
    requires tc.Valid()
    ensures Execute(tc, vars).Ok? && LabelsFrom(Execute(tc, vars).value, Lookup(vars, tc.referenceVar).values)
  {
    var vs, out := Lookup(vars, tc.referenceVar).values, Execute(tc, vars).value;
    if !NoDataAlone(vs) {
      HiddenByNoData(tc, vars);
      assert vs[0] in vs;
    } else if IsRange(tc) {
      var e := Range(tc);
      JoinKeepsLabels(e.op, e.left, e.right, tc.referenceVar, vars);
      NegatedFrom(Walk(e, vars), vs);
    } else {
      ExecuteIsPointwise(tc, vars);
      forall w | w in out ensures LabelledLike(w, vs) {
        var i :| 0 <= i < |vs| && w == Verdict(tc, vs[i]);
        assert vs[i] in vs;
      }
    }
  }

  lemma NegatedFrom(ws: seq<Value>, vs: seq<Value>)
    requires LabelsFrom(ws, vs)
    ensures LabelsFrom(seq(|ws|, i requires 0 <= i < |ws| => Negate(ws[i])), vs)
  {
    var ns := seq(|ws|, i requires 0 <= i < |ws| => Negate(ws[i]));
    forall n | n in ns ensures LabelledLike(n, vs) {
      var i :| 0 <= i < |ws| && n == Negate(ws[i]);
      assert LabelledLike(ws[i], vs);
    }
  }

  // ---------------------------------------------------------------- the precision of the literals

  /** A whole count of millionths. */
  predicate Whole(a: real) {
    (a * 1000000.0).Floor as real == a * 1000000.0
  }

  lemma PrintedNear(a: real)
    ensures -0.0000005 <= Millionths(Printed(a)) - a <= 0.0000005
    ensures Millionths(Printed(a)) == a <==> Whole(a)
    ensures Whole(a) <==> exists n: int :: a == Millionths(n)
  {
    var y := a * 1000000.0;
    var n := Printed(a);
    assert -0.5 <= n as real - y <= 0.5;
    if m: int :| a == Millionths(m) {
      assert y == m as real;
    }
    if Whole(a) {
      assert a == Millionths(y.Floor);
    }
  }

  /** Printing keeps the order of two numbers, or makes them equal. */
  lemma PrintedMonotone(a: real, b: real)
    requires a <= b
    ensures Printed(a) <= Printed(b) && Millionths(Printed(a)) <= Millionths(Printed(b))
  {
    assert a * 1000000.0 <= b * 1000000.0;
  }

  /**
   * The compiled threshold agrees with the direct one on every number further than half a
   * millionth from each argument, and on all numbers when the arguments are whole millionths.
   */
  lemma CompilationBound(tc: ThresholdCommand, x: real)
    requires tc.Valid()
    requires forall i :: 0 <= i < Arity(tc.thresholdFunc).value ==>
      Whole(tc.conditions[i]) || x - tc.conditions[i] > 0.0000005 || tc.conditions[i] - x > 0.0000005
    ensures Compiled(tc, x) == Direct(tc, x)
  {
    PrintedNear(tc.conditions[0]);
    if IsRange(tc) {
      PrintedNear(tc.conditions[1]);
    }
  }

  /** "Greater than a" is decided wrongly for x when it is compiled with p. */
  predicate MissedAbove(a: real, p: real, x: real) {
    a < x <= p || p < x <= a
  }

  predicate MissedBelow(a: real, p: real, x: real) {
    a <= x < p || p <= x < a
  }

  /**
   * Exactly the numbers on which a threshold is compiled wrongly: those between an argument and
   * its printed form, unless the other half of a range decides anyway or both halves err alike.
   */
  lemma CompilationError(tc: ThresholdCommand, x: real)
    requires tc.Valid()
    ensures Compiled(tc, x) != Direct(tc, x) <==>
      var a, p := tc.conditions[0], Millionths(Printed(tc.conditions[0]));
      if tc.thresholdFunc == IS_ABOVE then MissedAbove(a, p, x)
      else if tc.thresholdFunc == IS_BELOW then MissedBelow(a, p, x)
      else
        var b, q := tc.conditions[1], Millionths(Printed(tc.conditions[1]));
        if tc.thresholdFunc == IS_WITHIN_RANGE then
          || (MissedAbove(a, p, x) && !MissedBelow(b, q, x) && x < b)
          || (MissedBelow(b, q, x) && !MissedAbove(a, p, x) && a < x)
          || (MissedAbove(a, p, x) && MissedBelow(b, q, x) && (a < x <==> x < b))
        else
          || (MissedBelow(a, p, x) && !MissedAbove(b, q, x) && x <= b)
          || (MissedAbove(b, q, x) && !MissedBelow(a, p, x) && a <= x)
          || (MissedBelow(a, p, x) && MissedAbove(b, q, x) && (x < a <==> x > b))
  {
  }

  /**
   * The arguments whose printing changes no verdict: whole counts of millionths, ranges that no
   * number is within, and ranges that every number is outside, before and after printing.
   */
  predicate Harmless(tc: ThresholdCommand)
    requires tc.Valid()
  {
    || (forall i :: 0 <= i < Arity(tc.thresholdFunc).value ==> Whole(tc.conditions[i]))
    || (tc.thresholdFunc == IS_WITHIN_RANGE && tc.conditions[0] >= tc.conditions[1])
    || (tc.thresholdFunc == IS_OUTSIDE_RANGE && Printed(tc.conditions[0]) > Printed(tc.conditions[1]))
  }

  /** A number that is decided wrongly, when there is one. */
  function Witness(tc: ThresholdCommand): real
    requires tc.Valid()
  {
    var a, p := tc.conditions[0], Millionths(Printed(tc.conditions[0]));
    if !IsRange(tc) then (a + p) / 2.0
    else
      var b, q := tc.conditions[1], Millionths(Printed(tc.conditions[1]));
      if tc.thresholdFunc == IS_WITHIN_RANGE then
        if a < p then (a + if p < b then p else b) / 2.0
        else if p < a then (if p < q then (p + if a < q then a else q) / 2.0 else (a + b) / 2.0)
        else (b + q) / 2.0
      else if a > b then p
      else if a < p then a
      else if p < a then p
      else if b < q then q
      else b
  }

  lemma HarmlessCompiles(tc: ThresholdCommand, x: real)
    requires tc.Valid() && Harmless(tc)
    ensures Compiled(tc, x) == Direct(tc, x)
  {
    PrintedNear(tc.conditions[0]);
    if IsRange(tc) {
      PrintedNear(tc.conditions[1]);
      if tc.conditions[0] >= tc.conditions[1] {
        PrintedMonotone(tc.conditions[1], tc.conditions[0]);
      } else {
        PrintedMonotone(tc.conditions[0], tc.conditions[1]);
      }
    }
  }

  lemma WitnessFails(tc: ThresholdCommand)
    requires tc.Valid() && !Harmless(tc)
    ensures Compiled(tc, Witness(tc)) != Direct(tc, Witness(tc))
  {
    PrintedNear(tc.conditions[0]);
    if IsRange(tc) {
      PrintedNear(tc.conditions[1]);
      if tc.conditions[0] >= tc.conditions[1] {
        PrintedMonotone(tc.conditions[1], tc.conditions[0]);
      } else {
        PrintedMonotone(tc.conditions[0], tc.conditions[1]);
      }
    }
  }

  /** All four functions: no number is decided wrongly if and only if the arguments are harmless. */
  lemma CompiledExactly(tc: ThresholdCommand)
    requires tc.Valid()
    ensures (forall x :: Compiled(tc, x) == Direct(tc, x)) <==> Harmless(tc)
  {
    if Harmless(tc) {
      forall x ensures Compiled(tc, x) == Direct(tc, x) { HarmlessCompiles(tc, x); }
    } else {
      WitnessFails(tc);
    }
  }
}
