/**
 * Repeated evaluation of one hysteresis command: the fingerprints that fire in one evaluation
 * travel in a data frame of the stored query and are the loaded set of the next.
 */
module HysteresisTrace {
  import opened Basics
  import opened MathExp
  import opened Fingerprints
  import opened Hysteresis
  import opened HysteresisQuery
  import Intervals
  import Threshold

  /** The dimensions an evaluation leaves firing. */
  function Firing(vs: seq<Value>, fingerprint: Labels -> Fingerprint): set<Fingerprint> {
    set v | v in vs && v.Number? && v.x != 0.0 :: fingerprint(v.labels)
  }

  /** The output of one evaluation. */
  function Turn(h: HysteresisCommand, values: seq<Value>, fingerprint: Labels -> Fingerprint): seq<Value>
    requires h.Callable()
  {
    Meaning(h, map[h.referenceVar := Results(values, None)], fingerprint).results.values
  }

  /** The output of evaluation t, when each earlier one fed its firing dimensions forward. */
  function Output(h: HysteresisCommand, fingerprint: Labels -> Fingerprint, inputs: seq<seq<Value>>, t: nat): seq<Value>
    requires h.Callable() && t < |inputs|
    decreases t, 1
  {
    Turn(h.(loaded := LoadedBefore(h, fingerprint, inputs, t)), inputs[t], fingerprint)
  }

  function LoadedBefore(h: HysteresisCommand, fingerprint: Labels -> Fingerprint, inputs: seq<seq<Value>>, t: nat): set<Fingerprint>
    requires h.Callable() && t < |inputs|
    decreases t, 0
  {
    if t == 0 then h.loaded else Firing(Output(h, fingerprint, inputs, t - 1), fingerprint)
  }

  predicate FiresAt(h: HysteresisCommand, fingerprint: Labels -> Fingerprint, inputs: seq<seq<Value>>, f: Fingerprint, t: nat)
    requires h.Callable() && t < |inputs|
  {
    f in Firing(Output(h, fingerprint, inputs, t), fingerprint)
  }

  predicate Load(h: HysteresisCommand, x: real)
    requires h.Valid()
  {
    Threshold.Compare(h.loading.thresholdFunc, Threshold.PrintedArgs(h.loading.conditions), x)
  }

  predicate Unload(h: HysteresisCommand, x: real)
    requires h.Valid()
  {
    Threshold.Compare(h.unloading.thresholdFunc, Threshold.PrintedArgs(h.unloading.conditions), x)
  }

  ghost predicate NeverBoth(h: HysteresisCommand)
    requires h.Valid()
  {
    forall x :: !(Load(h, x) && Unload(h, x))
  }

  /** No interval of the load condition meets one of the unload condition, on the printed arguments. */
  predicate Disjoint(h: HysteresisCommand)
    requires h.Valid()
  {
    Intervals.AllApart(
      Intervals.Accepted(h.loading.thresholdFunc, Threshold.PrintedArgs(h.loading.conditions)),
      Intervals.Accepted(h.unloading.thresholdFunc, Threshold.PrintedArgs(h.unloading.conditions)))
  }

  /** Whether the two conditions ever hold together can be read off their arguments. */
  lemma DisjointExactlyWhenNeverBoth(h: HysteresisCommand)
    requires h.Valid()
    ensures Disjoint(h) <==> NeverBoth(h)
  {
    Intervals.ApartExactlyWhenNeverBoth(
      h.loading.thresholdFunc, Threshold.PrintedArgs(h.loading.conditions),
      h.unloading.thresholdFunc, Threshold.PrintedArgs(h.unloading.conditions));
    if NeverBoth(h) {
      forall x
        ensures !(Threshold.Compare(h.loading.thresholdFunc, Threshold.PrintedArgs(h.loading.conditions), x) &&
                  Threshold.Compare(h.unloading.thresholdFunc, Threshold.PrintedArgs(h.unloading.conditions), x))
      {
        assert !(Load(h, x) && Unload(h, x));
      }
    }
  }

  /** vs[i] is the one number of dimension f, and it is x. */
  ghost predicate Carried(fingerprint: Labels -> Fingerprint, vs: seq<Value>, f: Fingerprint, x: real, i: nat) {
    && i < |vs| && vs[i].Number? && vs[i].x == x
    && forall j :: 0 <= j < |vs| ==> (vs[j].Number? && fingerprint(vs[j].GetLabels()) == f <==> j == i)
  }

  ghost predicate Absent(fingerprint: Labels -> Fingerprint, vs: seq<Value>, f: Fingerprint) {
    forall j :: 0 <= j < |vs| ==> !(vs[j].Number? && fingerprint(vs[j].GetLabels()) == f)
  }

  /** Dimension f has the number x, or no number. */
  ghost predicate Reading(fingerprint: Labels -> Fingerprint, vs: seq<Value>, f: Fingerprint, x: Option<real>) {
    if x.Some? then exists i :: Carried(fingerprint, vs, f, x.value, i) else Absent(fingerprint, vs, f)
  }

  /** The numbers xs that dimension f has over a history; it is present at most once at each step. */
  ghost predicate Tracks(fingerprint: Labels -> Fingerprint, inputs: seq<seq<Value>>, f: Fingerprint, xs: seq<Option<real>>) {
    |inputs| == |xs| && forall t :: 0 <= t < |xs| ==> Reading(fingerprint, inputs[t], f, xs[t])
  }

  ghost predicate SeparableAt(h: HysteresisCommand, fingerprint: Labels -> Fingerprint, inputs: seq<seq<Value>>, t: nat)
    requires h.Valid() && t < |inputs|
  {
    Separable(h.(loaded := LoadedBefore(h, fingerprint, inputs, t)), fingerprint, inputs[t])
  }

  /** At each step each threshold is separable on its side of the set then loaded. */
  ghost predicate AllSeparable(h: HysteresisCommand, fingerprint: Labels -> Fingerprint, inputs: seq<seq<Value>>)
    requires h.Valid()
  {
    forall t :: 0 <= t < |inputs| ==> SeparableAt(h, fingerprint, inputs, t)
  }

  /** The dimension is there and does not meet the unload condition. */
  predicate Stays(h: HysteresisCommand, x: Option<real>)
    requires h.Valid()
  {
    x.Some? && !Unload(h, x.value)
  }

  ghost predicate StaysFrom(h: HysteresisCommand, xs: seq<Option<real>>, from: nat, to: int)
    requires h.Valid() && to <= |xs|
  {
    forall r :: from <= r < to ==> Stays(h, xs[r])
  }

  predicate Loads(h: HysteresisCommand, x: Option<real>)
    requires h.Valid()
  {
    x.Some? && Load(h, x.value)
  }

  /**
   * The load condition held at some step, or the dimension was loaded to begin with, and at every
   * step since it was present and the unload condition did not hold.
   */
  ghost predicate LoadedSince(h: HysteresisCommand, f: Fingerprint, xs: seq<Option<real>>, t: nat)
    requires h.Valid() && t < |xs|
  {
    || (exists s :: 0 <= s <= t && Loads(h, xs[s]) && StaysFrom(h, xs, s + 1, t + 1))
    || (f in h.loaded && StaysFrom(h, xs, 0, t + 1))
  }

  /** One transition: loaded dimensions stay until the unload condition holds or they are gone, others wait for the load condition. */
  predicate Decide(h: HysteresisCommand, x: Option<real>, loaded: bool)
    requires h.Valid()
  {
    if loaded then Stays(h, x) else Loads(h, x)
  }

  /** The two-state machine of one dimension. */
  predicate State(h: HysteresisCommand, f: Fingerprint, xs: seq<Option<real>>, t: nat)
    requires h.Valid() && t < |xs|
  {
    Decide(h, xs[t], if t == 0 then f in h.loaded else State(h, f, xs, t - 1))
  }

  /** One evaluation decides a dimension by its own number and its own previous state. */
  lemma OneStep(h: HysteresisCommand, fingerprint: Labels -> Fingerprint, vs: seq<Value>, f: Fingerprint, x: Option<real>)
    requires h.Valid() && Separable(h, fingerprint, vs) && Reading(fingerprint, vs, f, x)
    ensures f in Firing(Turn(h, vs, fingerprint), fingerprint) <==> Decide(h, x, f in h.loaded)
  {
    var vars := map[h.referenceVar := Results(vs, None)];
    if !IsNoData(Lookup(vars, h.referenceVar)) {
      MeaningIsRule(h, vars, fingerprint);
      FiringOfPermutation(Turn(h, vs, fingerprint), Rules(h, fingerprint, vs), fingerprint);
      FiringOfRules(h, fingerprint, vs, f, x);
    }
  }

  lemma FiringOfPermutation(a: seq<Value>, b: seq<Value>, fingerprint: Labels -> Fingerprint)
    requires multiset(a) == multiset(b)
    ensures Firing(a, fingerprint) == Firing(b, fingerprint)
  {
    forall v ensures v in a <==> v in b {
      assert v in a <==> v in multiset(a);
      assert v in b <==> v in multiset(b);
    }
  }

  lemma FiringOfRules(h: HysteresisCommand, fingerprint: Labels -> Fingerprint, vs: seq<Value>, f: Fingerprint, x: Option<real>)
    requires h.Valid() && Reading(fingerprint, vs, f, x)
    ensures f in Firing(Rules(h, fingerprint, vs), fingerprint) <==> Decide(h, x, f in h.loaded)
  {
    var rules := Rules(h, fingerprint, vs);
    forall j | 0 <= j < |vs| ensures rules[j].GetLabels() == vs[j].GetLabels() && rules[j].Number? == vs[j].Number? {
      assert rules[j] == Rule(h, fingerprint, vs[j]);
    }
    if f in Firing(rules, fingerprint) {
      var v :| v in rules && v.Number? && v.x != 0.0 && fingerprint(v.labels) == f;
      var j :| 0 <= j < |rules| && rules[j] == v;
      assert vs[j].Number? && fingerprint(vs[j].GetLabels()) == f;
    }
    if x.Some? {
      var i: nat :| Carried(fingerprint, vs, f, x.value, i);
      assert rules[i] in rules && fingerprint(vs[i].GetLabels()) == f;
    }
  }

  lemma StepAt(
    h: HysteresisCommand, fingerprint: Labels -> Fingerprint, inputs: seq<seq<Value>>, f: Fingerprint, x: Option<real>, t: nat)
    requires h.Valid() && t < |inputs| && SeparableAt(h, fingerprint, inputs, t) && Reading(fingerprint, inputs[t], f, x)
    ensures FiresAt(h, fingerprint, inputs, f, t) <==> Decide(h, x, if t == 0 then f in h.loaded else FiresAt(h, fingerprint, inputs, f, t - 1))
  {
    OneStep(h.(loaded := LoadedBefore(h, fingerprint, inputs, t)), fingerprint, inputs[t], f, x);
  }

  ghost predicate DecidedAt(h: HysteresisCommand, f: Fingerprint, xs: seq<Option<real>>, fires: seq<bool>, t: nat)
    requires h.Valid() && t < |xs| == |fires|
  {
    fires[t] == Decide(h, xs[t], if t == 0 then f in h.loaded else fires[t - 1])
  }

  /** A history of decisions in which each is made from the one before. */
  ghost predicate Decisions(h: HysteresisCommand, f: Fingerprint, xs: seq<Option<real>>, fires: seq<bool>)
    requires h.Valid()
  {
    |fires| == |xs| && forall t :: 0 <= t < |xs| ==> DecidedAt(h, f, xs, fires, t)
  }

  lemma {:induction false} DecisionsAreStates(h: HysteresisCommand, f: Fingerprint, xs: seq<Option<real>>, fires: seq<bool>, t: nat)
    requires h.Valid() && Decisions(h, f, xs, fires) && t < |xs|
    ensures fires[t] <==> State(h, f, xs, t)
  {
    assert DecidedAt(h, f, xs, fires, t);
    if t > 0 {
      DecisionsAreStates(h, f, xs, fires, t - 1);
    }
  }

  function FiringHistory(h: HysteresisCommand, fingerprint: Labels -> Fingerprint, inputs: seq<seq<Value>>, f: Fingerprint): (fires: seq<bool>)
    requires h.Callable()
    ensures |fires| == |inputs| && forall i :: 0 <= i < |fires| ==> fires[i] == FiresAt(h, fingerprint, inputs, f, i)
  {
    seq(|inputs|, i requires 0 <= i < |inputs| => FiresAt(h, fingerprint, inputs, f, i))
  }

  lemma FiringIsDecided(
    h: HysteresisCommand, fingerprint: Labels -> Fingerprint, inputs: seq<seq<Value>>, f: Fingerprint, xs: seq<Option<real>>, fires: seq<bool>, i: nat)
    requires h.Valid() && Tracks(fingerprint, inputs, f, xs) && AllSeparable(h, fingerprint, inputs) && i < |xs| == |fires|
    requires fires[i] == FiresAt(h, fingerprint, inputs, f, i) && (i > 0 ==> fires[i - 1] == FiresAt(h, fingerprint, inputs, f, i - 1))
    ensures DecidedAt(h, f, xs, fires, i)
  {
    assert Reading(fingerprint, inputs[i], f, xs[i]) && SeparableAt(h, fingerprint, inputs, i);
    StepAt(h, fingerprint, inputs, f, xs[i], i);
  }

  lemma FiresIsState(
    h: HysteresisCommand, fingerprint: Labels -> Fingerprint, inputs: seq<seq<Value>>, f: Fingerprint, xs: seq<Option<real>>, t: nat)
    requires h.Valid() && Tracks(fingerprint, inputs, f, xs) && AllSeparable(h, fingerprint, inputs) && t < |xs|
    ensures FiresAt(h, fingerprint, inputs, f, t) <==> State(h, f, xs, t)
  {
    var fires := FiringHistory(h, fingerprint, inputs, f);
    forall i | 0 <= i < |xs| ensures DecidedAt(h, f, xs, fires, i) {
      FiringIsDecided(h, fingerprint, inputs, f, xs, fires, i);
    }
    DecisionsAreStates(h, f, xs, fires, t);
  }

  lemma {:induction false} StateIsLoadedSince(h: HysteresisCommand, f: Fingerprint, xs: seq<Option<real>>, t: nat)
    requires h.Valid() && NeverBoth(h) && t < |xs|
    ensures State(h, f, xs, t) <==> LoadedSince(h, f, xs, t)
  {
    if t == 0 {
      LoadedSinceFirst(h, f, xs);
    } else {
      StateIsLoadedSince(h, f, xs, t - 1);
      LoadedSinceNext(h, f, xs, t);
    }
  }

  lemma LoadsAndStays(h: HysteresisCommand, x: Option<real>)
    requires h.Valid() && NeverBoth(h)
    ensures Loads(h, x) ==> Stays(h, x)
  {
  }

  lemma LoadedSinceFirst(h: HysteresisCommand, f: Fingerprint, xs: seq<Option<real>>)
    requires h.Valid() && NeverBoth(h) && 0 < |xs|
    ensures LoadedSince(h, f, xs, 0) <==> Decide(h, xs[0], f in h.loaded)
  {
    LoadsAndStays(h, xs[0]);
    assert StaysFrom(h, xs, 0 + 1, 1);
  }

  lemma LoadedSinceNext(h: HysteresisCommand, f: Fingerprint, xs: seq<Option<real>>, t: nat)
    requires h.Valid() && NeverBoth(h) && 0 < t < |xs|
    ensures LoadedSince(h, f, xs, t) <==> Decide(h, xs[t], LoadedSince(h, f, xs, t - 1))
  {
    LoadsAndStays(h, xs[t]);
    assert StaysFrom(h, xs, t + 1, t + 1);
    if s :| 0 <= s <= t - 1 && Loads(h, xs[s]) && StaysFrom(h, xs, s + 1, t - 1 + 1) && Stays(h, xs[t]) {
      assert StaysFrom(h, xs, s + 1, t + 1);
    }
    if s :| 0 <= s <= t && Loads(h, xs[s]) && StaysFrom(h, xs, s + 1, t + 1) && s < t {
      assert StaysFrom(h, xs, s + 1, t - 1 + 1);
    }
  }

  /**
   * The trace property. With disjoint load and unload conditions a dimension fires at step t of
   * any history exactly when the load condition held at some step s <= t (or it was loaded to
   * begin with), and at every step since it was present and the unload condition did not hold.
   */
  lemma FiresExactlyWhenLoadedSince(
    h: HysteresisCommand, fingerprint: Labels -> Fingerprint, inputs: seq<seq<Value>>, f: Fingerprint, xs: seq<Option<real>>, t: nat)
    requires h.Valid() && Disjoint(h)
    requires Tracks(fingerprint, inputs, f, xs) && AllSeparable(h, fingerprint, inputs) && t < |xs|
    ensures FiresAt(h, fingerprint, inputs, f, t) <==> LoadedSince(h, f, xs, t)
  {
    DisjointExactlyWhenNeverBoth(h);
    FiresIsState(h, fingerprint, inputs, f, xs, t);
    StateIsLoadedSince(h, f, xs, t);
  }

  /** One labelled number, or no data. */
  function Sole(labels: Labels, x: Option<real>): seq<Value> {
    if x.Some? then [Number(labels, x.value)] else [NoData]
  }

  /** The history of one labelled number. */
  function History(labels: Labels, xs: seq<Option<real>>): (inputs: seq<seq<Value>>)
    ensures |inputs| == |xs| && forall t :: 0 <= t < |xs| ==> inputs[t] == Sole(labels, xs[t])
  {
    seq(|xs|, t requires 0 <= t < |xs| => Sole(labels, xs[t]))
  }

  lemma {:induction false} SideLength(loaded: set<Fingerprint>, fingerprint: Labels -> Fingerprint, vs: seq<Value>, inside: bool)
    ensures |Side(loaded, fingerprint, vs, inside)| <= |vs|
    ensures forall v :: v in Side(loaded, fingerprint, vs, inside) ==> v in vs
  {
    if vs != [] {
      SideLength(loaded, fingerprint, vs[..|vs| - 1], inside);
    }
  }

  lemma SoleIsRead(h: HysteresisCommand, fingerprint: Labels -> Fingerprint, labels: Labels, x: Option<real>)
    requires h.Valid()
    ensures Separable(h, fingerprint, Sole(labels, x)) && Reading(fingerprint, Sole(labels, x), fingerprint(labels), x)
  {
    SideLength(h.loaded, fingerprint, Sole(labels, x), false);
    SideLength(h.loaded, fingerprint, Sole(labels, x), true);
    if x.Some? {
      assert Carried(fingerprint, Sole(labels, x), fingerprint(labels), x.value, 0);
    }
  }

  /** The trace property of one dimension. */
  ghost predicate TraceProperty(h: HysteresisCommand, fingerprint: Labels -> Fingerprint, labels: Labels, xs: seq<Option<real>>, t: nat)
    requires h.Valid() && t < |xs|
  {
    FiresAt(h, fingerprint, History(labels, xs), fingerprint(labels), t) <==> LoadedSince(h, fingerprint(labels), xs, t)
  }

  /**
   * The trace property holds for every history of a dimension if and only if the two conditions
   * are disjoint: a number meeting both loads a dimension at one step and unloads it at the next,
   * or at once if it was loaded to begin with.
   */
  lemma TracePropertyExactlyWhenDisjoint(h: HysteresisCommand, fingerprint: Labels -> Fingerprint, labels: Labels)
    requires h.Valid()
    ensures Disjoint(h) <==> forall xs: seq<Option<real>>, t: nat :: t < |xs| ==> TraceProperty(h, fingerprint, labels, xs, t)
  {
    DisjointExactlyWhenNeverBoth(h);
    if Disjoint(h) {
      forall xs: seq<Option<real>>, t: nat | t < |xs| ensures TraceProperty(h, fingerprint, labels, xs, t) {
        HistoryTracks(h, fingerprint, labels, xs);
        FiresExactlyWhenLoadedSince(h, fingerprint, History(labels, xs), fingerprint(labels), xs, t);
      }
    } else {
      var x :| Load(h, x) && Unload(h, x);
      if fingerprint(labels) in h.loaded {
        UnloadsAtOnce(h, fingerprint, labels, x);
      } else {
        LoadsThenUnloads(h, fingerprint, labels, x);
      }
    }
  }

  lemma HistoryTracks(h: HysteresisCommand, fingerprint: Labels -> Fingerprint, labels: Labels, xs: seq<Option<real>>)
    requires h.Valid()
    ensures Tracks(fingerprint, History(labels, xs), fingerprint(labels), xs) && AllSeparable(h, fingerprint, History(labels, xs))
  {
    var inputs := History(labels, xs);
    forall s | 0 <= s < |xs| ensures Reading(fingerprint, inputs[s], fingerprint(labels), xs[s]) && SeparableAt(h, fingerprint, inputs, s) {
      SoleIsRead(h.(loaded := LoadedBefore(h, fingerprint, inputs, s)), fingerprint, labels, xs[s]);
    }
  }

  lemma UnloadsAtOnce(h: HysteresisCommand, fingerprint: Labels -> Fingerprint, labels: Labels, x: real)
    requires h.Valid() && fingerprint(labels) in h.loaded && Load(h, x) && Unload(h, x)
    ensures !TraceProperty(h, fingerprint, labels, [Some(x)], 0)
  {
    var xs, f := [Some(x)], fingerprint(labels);
    var inputs := History(labels, xs);
    HistoryTracks(h, fingerprint, labels, xs);
    assert SeparableAt(h, fingerprint, inputs, 0) && Reading(fingerprint, inputs[0], f, xs[0]);
    StepAt(h, fingerprint, inputs, f, xs[0], 0);
    assert Loads(h, xs[0]) && StaysFrom(h, xs, 0 + 1, 0 + 1);
  }

  lemma LoadsThenUnloads(h: HysteresisCommand, fingerprint: Labels -> Fingerprint, labels: Labels, x: real)
    requires h.Valid() && fingerprint(labels) !in h.loaded && Load(h, x) && Unload(h, x)
    ensures !TraceProperty(h, fingerprint, labels, [Some(x), Some(x)], 1)
  {
    var xs, f := [Some(x), Some(x)], fingerprint(labels);
    var inputs := History(labels, xs);
    HistoryTracks(h, fingerprint, labels, xs);
    assert SeparableAt(h, fingerprint, inputs, 0) && SeparableAt(h, fingerprint, inputs, 1);
    assert Reading(fingerprint, inputs[0], f, xs[0]) && Reading(fingerprint, inputs[1], f, xs[1]);
    StepAt(h, fingerprint, inputs, f, xs[0], 0);
    StepAt(h, fingerprint, inputs, f, xs[1], 1);
    assert Loads(h, xs[1]) && StaysFrom(h, xs, 1 + 1, 1 + 1);
  }

  /**
   * One turn of the loop: parse the stored query, run the command on the store, collect the
   * firing dimensions and write them into the query.
   */
  method Evaluate(refID: string, query: RawQuery, ghost h: HysteresisCommand, values: seq<Value>, fingerprint: Labels -> Fingerprint)
    returns (output: seq<Value>)
    requires query.Describes(refID, h)
    modifies query
    ensures output == Turn(h, values, fingerprint)
    ensures query.Describes(refID, h.(loaded := Firing(output, fingerprint)))
  {
    var command := query.Parse(refID, h);
    var store := new VarStore();
    store.vars := map[command.referenceVar := Results(values, None)];
    var o := Execute(command, store, fingerprint);
    output := o.results.values;
    query.Reload(refID, h, Firing(output, fingerprint));
  }

  ghost predicate IsOutput(h: HysteresisCommand, fingerprint: Labels -> Fingerprint, inputs: seq<seq<Value>>, t: nat, output: seq<Value>)
    requires h.Callable() && t < |inputs|
  {
    output == Output(h, fingerprint, inputs, t)
  }

  /** The outputs of the first evaluations of a history. */
  ghost predicate OutputsOf(h: HysteresisCommand, fingerprint: Labels -> Fingerprint, inputs: seq<seq<Value>>, outputs: seq<seq<Value>>)
    requires h.Callable()
  {
    |outputs| <= |inputs| && forall t :: 0 <= t < |outputs| ==> IsOutput(h, fingerprint, inputs, t, outputs[t])
  }

  lemma TurnIsOutput(h: HysteresisCommand, fingerprint: Labels -> Fingerprint, inputs: seq<seq<Value>>, t: nat, output: seq<Value>)
    requires h.Callable() && t < |inputs|
    requires output == Turn(h.(loaded := LoadedBefore(h, fingerprint, inputs, t)), inputs[t], fingerprint)
    ensures IsOutput(h, fingerprint, inputs, t, output)
    ensures t + 1 < |inputs| ==> LoadedBefore(h, fingerprint, inputs, t + 1) == Firing(output, fingerprint)
  {
  }

  /** Evaluating a whole history turn by turn gives the outputs the trace property speaks of. */
  method EvaluateAll(refID: string, query: RawQuery, ghost h: HysteresisCommand, inputs: seq<seq<Value>>, fingerprint: Labels -> Fingerprint)
    returns (outputs: seq<seq<Value>>)
    requires query.Describes(refID, h)
    modifies query
    ensures |outputs| == |inputs| && OutputsOf(h, fingerprint, inputs, outputs)
  {
    outputs := [];
    ghost var command := h;
    for t := 0 to |inputs|
      invariant |outputs| == t && OutputsOf(h, fingerprint, inputs, outputs)
      invariant query.Describes(refID, command)
      invariant t < |inputs| ==> command == h.(loaded := LoadedBefore(h, fingerprint, inputs, t))
    {
      var output := Evaluate(refID, query, command, inputs[t], fingerprint);
      TurnIsOutput(h, fingerprint, inputs, t, output);
      outputs := outputs + [output];
      command := command.(loaded := Firing(output, fingerprint));
    }
  }
}
