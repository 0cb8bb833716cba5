/**
 * The hysteresis command (pkg/expr/hysteresis.go): a two-state machine per dimension. A value
 * whose fingerprint is in the loaded set is judged by the inverted unloading threshold, every
 * other value by the loading threshold. The command reuses the variable map as scratch space.
 */
module Hysteresis {
  import opened Basics
  import opened MathExp
  import opened Fingerprints
  import Threshold
  type ThresholdCommand = Threshold.ThresholdCommand

  /** The mutable variable map that all commands of one pipeline run share. */
  class VarStore {
    var vars: Vars

    constructor ()
      ensures vars == map[]
    {
      vars := map[];
    }
  }

  /** What an Execute method returns: results, and an error. */
  datatype Outcome = Outcome(results: Results, error: Option<Error>)

  datatype HysteresisCommand = HysteresisCommand(
    refID: string, referenceVar: string,
    loading: ThresholdCommand, unloading: ThresholdCommand, loaded: set<Fingerprint>)
  {
    /** Both thresholds have the arguments their functions read. */
    predicate Callable() {
      && (Threshold.Arity(loading.thresholdFunc).Some? ==> loading.Valid())
      && (Threshold.Arity(unloading.thresholdFunc).Some? ==> unloading.Valid())
    }

    /** What UnmarshalThresholdCommand establishes. */
    predicate Valid() {
      && loading.Valid() && unloading.Valid()
      && loading.referenceVar == referenceVar && unloading.referenceVar == referenceVar
      && !loading.invert && unloading.invert
    }
  }

  // ---------------------------------------------------------------- parsing

  datatype Evaluator = Evaluator(evalType: string, params: seq<real>)
  datatype Condition = Condition(evaluator: Evaluator, unload: Option<Evaluator>, loadedDimensions: Option<Frame>)
  datatype Config = Config(expression: string, conditions: seq<Condition>)
  datatype Parsed = Plain(threshold: ThresholdCommand) | WithMemory(hysteresis: HysteresisCommand)
  /** Panicked: the program does not return at all. */
  datatype ParseError =
    | NoVariable
    | NotOneCondition
    | InvalidCondition(cause: Error)
    | Panicked
    | BadLoadedDimensions(frameError: FrameError)

  /** The function of an evaluator is known and has its arguments. */
  predicate Sufficient(e: Evaluator) {
    Threshold.Arity(e.evalType).Some? && |e.params| >= Threshold.Arity(e.evalType).value
  }

  function ThresholdOf(refID: string, expression: string, e: Evaluator, invert: bool): (tc: ThresholdCommand)
    ensures tc.Valid() <==> Sufficient(e)
  {
    Threshold.ThresholdCommand(expression, refID, e.evalType, e.params, invert)
  }

  /** The loaded set a condition brings along; without a frame it is empty. */
  ghost predicate Brings(c: Condition, loaded: set<Fingerprint>) {
    if c.loadedDimensions.Some? then Lists(c.loadedDimensions.value, loaded) else loaded == {}
  }

  /** The configurations that are parsed without error. */
  predicate Parsable(config: Config, recoveryThreshold: bool) {
    && config.expression != "" && |config.conditions| == 1
    && var c := config.conditions[0];
       && Sufficient(c.evaluator)
       && (recoveryThreshold && c.unload.Some? ==>
             Sufficient(c.unload.value) && (c.loadedDimensions.Some? ==> Readable(c.loadedDimensions.value)))
  }

  /**
   * UnmarshalThresholdCommand. The command for the unload evaluator is dereferenced before the
   * error of its construction is looked at: an insufficient one makes the program panic.
   */
  method Unmarshal(refID: string, config: Config, recoveryThreshold: bool) returns (r: Result<Parsed, ParseError>)
    ensures r.Ok? <==> Parsable(config, recoveryThreshold)
    ensures r == Err(NoVariable) <==> config.expression == ""
    ensures r == Err(NotOneCondition) <==> config.expression != "" && |config.conditions| != 1
    ensures r == Err(Panicked) <==>
      && config.expression != "" && |config.conditions| == 1 && Sufficient(config.conditions[0].evaluator)
      && recoveryThreshold && config.conditions[0].unload.Some? && !Sufficient(config.conditions[0].unload.value)
    ensures r.Ok? ==> (r.value.WithMemory? <==> recoveryThreshold && config.conditions[0].unload.Some?)
    ensures r.Ok? && r.value.Plain? ==>
      && r.value.threshold == Threshold.ThresholdCommand(
           config.expression, refID, config.conditions[0].evaluator.evalType, config.conditions[0].evaluator.params, false)
      && r.value.threshold.Valid()
    ensures r.Ok? && r.value.WithMemory? ==>
      var h, c := r.value.hysteresis, config.conditions[0];
      && h.Valid() && h.refID == refID && h.referenceVar == config.expression
      && h.loading == Threshold.ThresholdCommand(config.expression, refID, c.evaluator.evalType, c.evaluator.params, false)
      && h.unloading == Threshold.ThresholdCommand(config.expression, refID, c.unload.value.evalType, c.unload.value.params, true)
      && (c.loadedDimensions.None? ==> h.loaded == {})
      && (c.loadedDimensions.Some? ==>
            |c.loadedDimensions.value.fields| == 1 && c.loadedDimensions.value.fields[0].Uint64Field? &&
            forall f :: f in h.loaded <==> f in c.loadedDimensions.value.fields[0].values)
  {
    if config.expression == "" {
      return Err(NoVariable);
    }
    if |config.conditions| != 1 {
      return Err(NotOneCondition);
    }
    var first := config.conditions[0];
    var threshold := Threshold.NewThresholdCommand(refID, config.expression, first.evaluator.evalType, first.evaluator.params);
    if threshold.Err? {
      return Err(InvalidCondition(threshold.error));
    }
    if first.unload.Some? && recoveryThreshold {
      var unload := first.unload.value;
      var unloading := Threshold.NewThresholdCommand(refID, config.expression, unload.evalType, unload.params);
      if unloading.Err? {
        return Err(Panicked);
      }
      var inverted := unloading.value.(invert := true);
      var d: set<Fingerprint> := {};
      if first.loadedDimensions.Some? {
        var dims := FromFrame(first.loadedDimensions.value);
        if dims.Err? {
          return Err(BadLoadedDimensions(dims.error));
        }
        d := dims.value;
      }
      return Ok(WithMemory(HysteresisCommand(refID, config.expression, threshold.value, inverted, d)));
    }
    return Ok(Plain(threshold.value));
  }

  // ---------------------------------------------------------------- execution

  function ThresholdOutcome(tc: ThresholdCommand, vars: Vars): Outcome
    requires Threshold.Arity(tc.thresholdFunc).Some? ==> tc.Valid()
  {
    match Threshold.Execute(tc, vars)
    case Ok(vs) => Outcome(Results(vs, None), None)
    case Err(e) => Outcome(NoResults, Some(e))
  }

  predicate IsLoaded(loaded: set<Fingerprint>, fingerprint: Labels -> Fingerprint, v: Value) {
    fingerprint(v.GetLabels()) in loaded
  }

  /** The values on one side of the loaded set, in their order. */
  function Side(loaded: set<Fingerprint>, fingerprint: Labels -> Fingerprint, vs: seq<Value>, inside: bool): seq<Value> {
    if vs == [] then []
    else
      var front := Side(loaded, fingerprint, vs[..|vs| - 1], inside);
      if IsLoaded(loaded, fingerprint, vs[|vs| - 1]) == inside then front + [vs[|vs| - 1]] else front
  }

  /** The outcome of the command on a variable map, without any map being rewritten. */
  function Meaning(h: HysteresisCommand, vars: Vars, fingerprint: Labels -> Fingerprint): Outcome
    requires h.Callable()
  {
    var results := Lookup(vars, h.referenceVar);
    var unloaded := Side(h.loaded, fingerprint, results.values, false);
    var loaded := Side(h.loaded, fingerprint, results.values, true);
    if IsNoData(results) then Outcome(Results([NoData], None), None)
    else if h.loaded == {} || loaded == [] then ThresholdOutcome(h.loading, vars)
    else if unloaded == [] then ThresholdOutcome(h.unloading, vars)
    else
      var first := ThresholdOutcome(h.loading, vars[h.referenceVar := Results(unloaded, None)]);
      var second := ThresholdOutcome(h.unloading, vars[h.referenceVar := Results(loaded, None)]);
      if first.error.Some? then Outcome(NoResults, Some(LoadingFailed(first.error.value)))
      else if second.error.Some? then Outcome(NoResults, Some(UnloadingFailed(second.error.value)))
      else Outcome(Results(first.results.values + second.results.values, None), None)
  }

  /**
   * HysteresisCommand.Execute. On the mixed path the reference entry is overwritten twice; on
   * every path, early and failing returns included, the map is back to what it was.
   */
  method Execute(h: HysteresisCommand, store: VarStore, fingerprint: Labels -> Fingerprint) returns (o: Outcome)
    requires h.Callable()
    modifies store
    ensures store.vars == old(store.vars)
    ensures o == Meaning(h, old(store.vars), fingerprint)
  {
    var results := Lookup(store.vars, h.referenceVar);
    if IsNoData(results) {
      return Outcome(Results([NoData], None), None);
    }
    if h.loaded == {} {
      return ThresholdOutcome(h.loading, store.vars);
    }
    var loadedVals, unloadedVals: seq<Value> := [], [];
    for i := 0 to |results.values|
      invariant loadedVals == Side(h.loaded, fingerprint, results.values[..i], true)
      invariant unloadedVals == Side(h.loaded, fingerprint, results.values[..i], false)
    {
      var value := results.values[i];
      assert results.values[..i + 1][..i] == results.values[..i];
      if fingerprint(value.GetLabels()) in h.loaded {
        loadedVals := loadedVals + [value];
      } else {
        unloadedVals := unloadedVals + [value];
      }
    }
    assert results.values[..|results.values|] == results.values;
    if |loadedVals| == 0 {
      return ThresholdOutcome(h.loading, store.vars);
    }
    if |unloadedVals| == 0 {
      return ThresholdOutcome(h.unloading, store.vars);
    }

    ghost var entry := store.vars;
    store.vars := store.vars[h.referenceVar := Results(unloadedVals, None)];
    var loadingResults := ThresholdOutcome(h.loading, store.vars);
    if loadingResults.error.Some? {
      store.vars := store.vars[h.referenceVar := results];
      assert store.vars == entry;
      return Outcome(NoResults, Some(LoadingFailed(loadingResults.error.value)));
    }
    store.vars := store.vars[h.referenceVar := Results(loadedVals, None)];
    assert store.vars == entry[h.referenceVar := Results(loadedVals, None)];
    var unloadingResults := ThresholdOutcome(h.unloading, store.vars);
    store.vars := store.vars[h.referenceVar := results];
    assert store.vars == entry;
    if unloadingResults.error.Some? {
      return Outcome(NoResults, Some(UnloadingFailed(unloadingResults.error.value)));
    }
    return Outcome(Results(loadingResults.results.values + unloadingResults.results.values, None), None);
  }

  /** The command reads nothing but its reference variable. */
  lemma ReadsOnlyReference(h: HysteresisCommand, vars: Vars, vars': Vars, fingerprint: Labels -> Fingerprint)
    requires h.Valid() && Lookup(vars, h.referenceVar).values == Lookup(vars', h.referenceVar).values
    ensures Meaning(h, vars, fingerprint) == Meaning(h, vars', fingerprint)
  {
    ThresholdReadsOnlyReference(h.loading, vars, vars');
    ThresholdReadsOnlyReference(h.unloading, vars, vars');
    var values := Lookup(vars, h.referenceVar).values;
    var out := Results(Side(h.loaded, fingerprint, values, false), None);
    var kept := Results(Side(h.loaded, fingerprint, values, true), None);
    ThresholdReadsOnlyReference(h.loading, vars[h.referenceVar := out], vars'[h.referenceVar := out]);
    ThresholdReadsOnlyReference(h.unloading, vars[h.referenceVar := kept], vars'[h.referenceVar := kept]);
  }

  lemma ThresholdReadsOnlyReference(tc: ThresholdCommand, vars: Vars, vars': Vars)
    requires tc.Valid() && Lookup(vars, tc.referenceVar).values == Lookup(vars', tc.referenceVar).values
    ensures ThresholdOutcome(tc, vars) == ThresholdOutcome(tc, vars')
  {
    WalkReadsOnlyVar(Threshold.Compile(tc), tc.referenceVar, vars, vars');
  }

  lemma {:induction false} WalkReadsOnlyVar(e: Expr, name: string, vars: Vars, vars': Vars)
    requires OnlyVar(e, name) && Lookup(vars, name).values == Lookup(vars', name).values
    ensures Walk(e, vars) == Walk(e, vars')
  {
    match e
    case Literal(_) =>
    case Var(_) =>
    case Binary(_, l, r) =>
      WalkReadsOnlyVar(l, name, vars, vars');
      WalkReadsOnlyVar(r, name, vars, vars');
    case Not(a) => WalkReadsOnlyVar(a, name, vars, vars');
  }

  // ---------------------------------------------------------------- one rule per value

  /** The rule for one value: loaded values face the inverted unloading threshold. */
  function Rule(h: HysteresisCommand, fingerprint: Labels -> Fingerprint, v: Value): Value
    requires h.Valid()
  {
    if IsLoaded(h.loaded, fingerprint, v) then Threshold.Verdict(h.unloading, v) else Threshold.Verdict(h.loading, v)
  }

  function Rules(h: HysteresisCommand, fingerprint: Labels -> Fingerprint, vs: seq<Value>): (r: seq<Value>)
    requires h.Valid()
    ensures |r| == |vs|
  {
    seq(|vs|, i requires 0 <= i < |vs| => Rule(h, fingerprint, vs[i]))
  }

  /** Value by value: the command for unloading where the labels' fingerprint is loaded, the one for loading elsewhere. */
  lemma RulesMeaning(h: HysteresisCommand, fingerprint: Labels -> Fingerprint, vs: seq<Value>, i: nat)
    requires h.Valid() && i < |vs|
    ensures |Rules(h, fingerprint, vs)| == |vs|
    ensures fingerprint(vs[i].GetLabels()) in h.loaded ==> Rules(h, fingerprint, vs)[i] == Threshold.Verdict(h.unloading, vs[i])
    ensures fingerprint(vs[i].GetLabels()) !in h.loaded ==> Rules(h, fingerprint, vs)[i] == Threshold.Verdict(h.loading, vs[i])
  {
  }

  /** Value by value, in their order, each goes to the side its labels' fingerprint puts it on. */
  lemma SideOneMore(loaded: set<Fingerprint>, fingerprint: Labels -> Fingerprint, vs: seq<Value>, v: Value)
    ensures Side(loaded, fingerprint, [], true) == Side(loaded, fingerprint, [], false) == []
    ensures Side(loaded, fingerprint, vs + [v], true) ==
            Side(loaded, fingerprint, vs, true) + if fingerprint(v.GetLabels()) in loaded then [v] else []
    ensures Side(loaded, fingerprint, vs + [v], false) ==
            Side(loaded, fingerprint, vs, false) + if fingerprint(v.GetLabels()) in loaded then [] else [v]
  {
    assert (vs + [v])[..|vs|] == vs;
  }

  function ThresholdFor(h: HysteresisCommand, inside: bool): ThresholdCommand {
    if inside then h.unloading else h.loading
  }

  /** Each threshold is separable on its own side of the loaded set. */
  ghost predicate Separable(h: HysteresisCommand, fingerprint: Labels -> Fingerprint, vs: seq<Value>)
    requires h.Valid()
  {
    && Threshold.Separable(h.loading, Side(h.loaded, fingerprint, vs, false))
    && Threshold.Separable(h.unloading, Side(h.loaded, fingerprint, vs, true))
  }

  lemma {:induction false} SideElements(h: HysteresisCommand, fingerprint: Labels -> Fingerprint, vs: seq<Value>, inside: bool)
    ensures forall v :: v in Side(h.loaded, fingerprint, vs, inside) <==>
      v in vs && IsLoaded(h.loaded, fingerprint, v) == inside
  {
    if vs != [] {
      var front, last := vs[..|vs| - 1], vs[|vs| - 1];
      SideElements(h, fingerprint, front, inside);
      assert vs == front + [last];
    }
  }

  lemma {:induction false} OneSided(h: HysteresisCommand, fingerprint: Labels -> Fingerprint, vs: seq<Value>, inside: bool)
    ensures Side(h.loaded, fingerprint, vs, !inside) == [] ==> Side(h.loaded, fingerprint, vs, inside) == vs
    ensures h.loaded == {} ==> Side(h.loaded, fingerprint, vs, true) == []
  {
    if vs != [] {
      var front, last := vs[..|vs| - 1], vs[|vs| - 1];
      OneSided(h, fingerprint, front, inside);
      if IsLoaded(h.loaded, fingerprint, last) == inside {
        assert Side(h.loaded, fingerprint, vs, inside) == Side(h.loaded, fingerprint, front, inside) + [last];
        assert vs == front + [last];
      } else {
        assert Side(h.loaded, fingerprint, vs, !inside) == Side(h.loaded, fingerprint, front, !inside) + [last];
      }
    }
  }

  lemma {:induction false} RulesOfSides(h: HysteresisCommand, fingerprint: Labels -> Fingerprint, vs: seq<Value>)
    requires h.Valid()
    ensures multiset(Rules(h, fingerprint, Side(h.loaded, fingerprint, vs, false))) +
            multiset(Rules(h, fingerprint, Side(h.loaded, fingerprint, vs, true))) == multiset(Rules(h, fingerprint, vs))
  {
    if vs != [] {
      var front, last := vs[..|vs| - 1], vs[|vs| - 1];
      RulesOfSides(h, fingerprint, front);
      SideRulesAppend(h, fingerprint, front, last, false);
      SideRulesAppend(h, fingerprint, front, last, true);
      RulesAppend(h, fingerprint, front, last);
      assert vs == front + [last];
    }
  }

  lemma SideRulesAppend(h: HysteresisCommand, fingerprint: Labels -> Fingerprint, front: seq<Value>, last: Value, inside: bool)
    requires h.Valid()
    ensures multiset(Rules(h, fingerprint, Side(h.loaded, fingerprint, front + [last], inside))) ==
            multiset(Rules(h, fingerprint, Side(h.loaded, fingerprint, front, inside))) +
            if IsLoaded(h.loaded, fingerprint, last) == inside then multiset{Rule(h, fingerprint, last)} else multiset{}
  {
    assert (front + [last])[..|front|] == front;
    RulesAppend(h, fingerprint, Side(h.loaded, fingerprint, front, inside), last);
  }

  lemma RulesAppend(h: HysteresisCommand, fingerprint: Labels -> Fingerprint, vs: seq<Value>, v: Value)
    requires h.Valid()
    ensures multiset(Rules(h, fingerprint, vs + [v])) ==
            multiset(Rules(h, fingerprint, vs)) + multiset{Rule(h, fingerprint, v)}
  {
    assert Rules(h, fingerprint, vs + [v]) == Rules(h, fingerprint, vs) + [Rule(h, fingerprint, v)];
  }

  /** What the threshold for one side makes of the values on it. */
  function SideValues(h: HysteresisCommand, fingerprint: Labels -> Fingerprint, vs: seq<Value>, inside: bool): seq<Value>
    requires h.Valid()
  {
    ThresholdOutcome(ThresholdFor(h, inside), map[h.referenceVar := Results(Side(h.loaded, fingerprint, vs, inside), None)]).results.values
  }

  lemma SideOutcome(h: HysteresisCommand, fingerprint: Labels -> Fingerprint, vs: seq<Value>, inside: bool, vars: Vars)
    requires h.Valid() && Lookup(vars, h.referenceVar).values == Side(h.loaded, fingerprint, vs, inside)
    ensures ThresholdOutcome(ThresholdFor(h, inside), vars) == Outcome(Results(SideValues(h, fingerprint, vs, inside), None), None)
    ensures Side(h.loaded, fingerprint, vs, inside) == [] ==> SideValues(h, fingerprint, vs, inside) == []
  {
    var side := map[h.referenceVar := Results(Side(h.loaded, fingerprint, vs, inside), None)];
    ThresholdReadsOnlyReference(ThresholdFor(h, inside), vars, side);
    Threshold.PointwiseExactlyWhenSeparable(ThresholdFor(h, inside), side);
  }

  /** All paths join what the two thresholds make of their sides, the values not loaded first. */
  lemma MeaningIsSides(h: HysteresisCommand, vars: Vars, fingerprint: Labels -> Fingerprint)
    requires h.Valid() && !IsNoData(Lookup(vars, h.referenceVar))
    ensures
      var vs := Lookup(vars, h.referenceVar).values;
      Meaning(h, vars, fingerprint) ==
        Outcome(Results(SideValues(h, fingerprint, vs, false) + SideValues(h, fingerprint, vs, true), None), None)
  {
    var vs := Lookup(vars, h.referenceVar).values;
    var unloaded, loaded := Side(h.loaded, fingerprint, vs, false), Side(h.loaded, fingerprint, vs, true);
    SideOutcome(h, fingerprint, vs, false, vars[h.referenceVar := Results(unloaded, None)]);
    SideOutcome(h, fingerprint, vs, true, vars[h.referenceVar := Results(loaded, None)]);
    OneSided(h, fingerprint, vs, false);
    OneSided(h, fingerprint, vs, true);
    if h.loaded == {} || loaded == [] {
      SideOutcome(h, fingerprint, vs, false, vars);
    } else if unloaded == [] {
      SideOutcome(h, fingerprint, vs, true, vars);
    }
  }

  /** The outputs of one side belong to that side: by their labels, loaded and unloaded outputs never mix. */
  lemma SideValuesStay(h: HysteresisCommand, fingerprint: Labels -> Fingerprint, vs: seq<Value>, inside: bool)
    requires h.Valid()
    ensures forall v :: v in SideValues(h, fingerprint, vs, inside) ==> IsLoaded(h.loaded, fingerprint, v) == inside
    ensures forall v :: v in Rules(h, fingerprint, Side(h.loaded, fingerprint, vs, inside)) ==> IsLoaded(h.loaded, fingerprint, v) == inside
  {
    var side := Side(h.loaded, fingerprint, vs, inside);
    var tc, vars := ThresholdFor(h, inside), map[h.referenceVar := Results(side, None)];
    SideElements(h, fingerprint, vs, inside);
    Threshold.ExecuteKeepsLabels(tc, vars);
    RulesOfSide(h, fingerprint, vs, inside);
    forall i | 0 <= i < |side| ensures IsLoaded(h.loaded, fingerprint, Threshold.Verdict(tc, side[i])) == inside {
      assert side[i] in side;
    }
  }

  lemma RulesOfSide(h: HysteresisCommand, fingerprint: Labels -> Fingerprint, vs: seq<Value>, inside: bool)
    requires h.Valid()
    ensures Rules(h, fingerprint, Side(h.loaded, fingerprint, vs, inside)) ==
            Threshold.Verdicts(ThresholdFor(h, inside), Side(h.loaded, fingerprint, vs, inside))
  {
    var side := Side(h.loaded, fingerprint, vs, inside);
    SideElements(h, fingerprint, vs, inside);
    forall i | 0 <= i < |side| ensures Rule(h, fingerprint, side[i]) == Threshold.Verdict(ThresholdFor(h, inside), side[i]) {
      assert side[i] in side;
    }
  }

  lemma SideIsRuledExactly(h: HysteresisCommand, fingerprint: Labels -> Fingerprint, vs: seq<Value>, inside: bool)
    requires h.Valid()
    ensures
      var side := Side(h.loaded, fingerprint, vs, inside);
      && (multiset(SideValues(h, fingerprint, vs, inside)) == multiset(Rules(h, fingerprint, side)) <==>
          Threshold.Separable(ThresholdFor(h, inside), side))
      && (SideValues(h, fingerprint, vs, inside) == Rules(h, fingerprint, side) <==>
          Threshold.Separable(ThresholdFor(h, inside), side))
  {
    RulesOfSide(h, fingerprint, vs, inside);
    Threshold.PointwiseExactlyWhenSeparable(
      ThresholdFor(h, inside), map[h.referenceVar := Results(Side(h.loaded, fingerprint, vs, inside), None)]);
  }

  /** Lists that are told apart by the loaded set are equal side by side if they are equal together. */
  lemma SidesApart(loaded: set<Fingerprint>, fingerprint: Labels -> Fingerprint, a: seq<Value>, b: seq<Value>, a': seq<Value>, b': seq<Value>)
    requires forall v :: v in a || v in a' ==> !IsLoaded(loaded, fingerprint, v)
    requires forall v :: v in b || v in b' ==> IsLoaded(loaded, fingerprint, v)
    ensures multiset(a) + multiset(b) == multiset(a') + multiset(b') <==> multiset(a) == multiset(a') && multiset(b) == multiset(b')
  {
    if multiset(a) + multiset(b) == multiset(a') + multiset(b') {
      forall v ensures multiset(a)[v] == multiset(a')[v] && multiset(b)[v] == multiset(b')[v] {
        assert (multiset(a) + multiset(b))[v] == (multiset(a') + multiset(b'))[v];
        assert v in multiset(a) ==> v in a;
        assert v in multiset(b) ==> v in b;
        assert v in multiset(a') ==> v in a';
        assert v in multiset(b') ==> v in b';
      }
      assert multiset(a) == multiset(a') && multiset(b) == multiset(b');
    }
  }

  /** A reference that is absent, empty or just "no data" gives "no data", without an error. */
  lemma NoDataIsKept(h: HysteresisCommand, vars: Vars, fingerprint: Labels -> Fingerprint)
    requires h.Valid()
    ensures
      h.referenceVar !in vars || vars[h.referenceVar].values == [] || vars[h.referenceVar].values == [NoData] ==>
      Meaning(h, vars, fingerprint) == Outcome(Results([NoData], None), None)
  {
  }

  /**
   * All four paths compute one rule: the output is, as a multiset, the rule applied to each input
   * value, if and only if each threshold is separable on its own side of the loaded set. The
   * values that were not loaded come first.
   */
  lemma MeaningIsRule(h: HysteresisCommand, vars: Vars, fingerprint: Labels -> Fingerprint)
    requires h.Valid() && Lookup(vars, h.referenceVar).values != [] && Lookup(vars, h.referenceVar).values != [NoData]
    ensures
      var vs, o := Lookup(vars, h.referenceVar).values, Meaning(h, vars, fingerprint);
      && o.error == None && o.results.error == None
      && (multiset(o.results.values) == multiset(Rules(h, fingerprint, vs)) <==> Separable(h, fingerprint, vs))
      && (Separable(h, fingerprint, vs) ==>
            o.results.values == Rules(h, fingerprint, Side(h.loaded, fingerprint, vs, false)) +
                                Rules(h, fingerprint, Side(h.loaded, fingerprint, vs, true)))
  {
    var vs := Lookup(vars, h.referenceVar).values;
    var unloaded, loaded := SideValues(h, fingerprint, vs, false), SideValues(h, fingerprint, vs, true);
    MeaningIsSides(h, vars, fingerprint);
    RulesOfSides(h, fingerprint, vs);
    SideValuesStay(h, fingerprint, vs, false);
    SideValuesStay(h, fingerprint, vs, true);
    SidesApart(h.loaded, fingerprint, unloaded, loaded,
      Rules(h, fingerprint, Side(h.loaded, fingerprint, vs, false)), Rules(h, fingerprint, Side(h.loaded, fingerprint, vs, true)));
    SideIsRuledExactly(h, fingerprint, vs, false);
    SideIsRuledExactly(h, fingerprint, vs, true);
    assert multiset(unloaded + loaded) == multiset(unloaded) + multiset(loaded);
  }
}
