# Verified models of Grafana's expression engine and two of its neighbours

This project models four pieces of Grafana's Go code and proves properties of them:

1. **Server-side expressions** (`pkg/expr`): a request becomes a dependency graph and a linear
   pipeline; the pipeline runs over a mutable map of results, with failures flowing to dependents;
   a second mode sends data source queries in one request per data source. On top sit threshold
   commands, compiled to math expressions, hysteresis commands that remember which dimensions were
   loaded, and the splitting and naming of the series in a data source's answer.
2. **The JSON-schema reference resolver** (`pkg/codegen/jenny_docs.go`).
3. **The dashboard permission reconciler** (`pkg/api/dashboard_permission.go`).
4. **The in-place reordering of generated declarations** (`pkg/codegen/jenny_ts_resources.go`).

`dafny verify dfyconfig.toml` checks everything.

| module | what it holds |
|---|---|
| Basics, Nodes | result types; nodes, commands and their needed variables |
| MathExp, Threshold | label-matching evaluation of expressions; compiled thresholds |
| Fingerprints, Hysteresis, HysteresisQuery, Intervals, HysteresisTrace | loaded dimensions, the mutating command, the stored query, disjoint conditions, whole histories |
| TopoSort, Graph | the stabilised sort; building the graph and the pipeline |
| Pipeline | the run loop, the recursive meaning of a request, failure propagation |
| Grouped, GroupedRefinement | the second mode, and exactly where it agrees with the first |
| RunMeaning | what each kind of node stores in a finished run of either mode |
| Transform | a request from end to end |
| WideSeries, SeriesNaming | frames rewritten in place, splitting, naming |
| SchemaResolver, SchemaProperties, SchemaMeaning, Chains, ReferenceCycles | the resolver; what resolved schemas look like, read off the document; which schemas are resolved in finitely many steps |
| Permissions, Reconciliation | commands on the store; what the store holds afterwards |
| SpecNode | the double move |

Loops of the source are loops here, and objects the source changes in place are classes
(`VarStore`, `RawQuery`, `DirectedGraph`, `Frame`, `Store`, `File`). Each method is proved against a
specification function, and the properties are proved of that function. What such a function computes
is in turn stated without it, on the inputs themselves: see `RunMeaning`, `SchemaMeaning` and the
members named `...Meaning`.

## Where the code does less than it promises

Each point is proved with the exact condition under which the promise holds.

- **Ranges multiply.** `within_range` and `outside_range` join their variable with itself by labels.
  When one label set contains another, more values come out than went in; where a series repeats a
  time, one half of the range sees the sample and the other the last one of that time; and "no data"
  in front of other values hides them. For every input, one verdict per value comes out if and only
  if none of this matters (`Threshold.PointwiseExactlyWhenSeparable`).
- **Six decimals.** Threshold arguments are printed with `%f`. For each of the four functions,
  `Threshold.CompiledExactly` gives the arguments that are compiled without error: whole counts of
  millionths, ranges nothing is within, and ranges everything is outside before and after printing.
- **Hysteresis applies each threshold to one side.** The output is the one rule per value if and only
  if each threshold meets the condition above on its own side of the loaded set
  (`Hysteresis.MeaningIsRule`).
- **Hysteresis needs disjoint conditions.** "Loaded since the last load" describes the firing
  dimensions if and only if the intervals of the two conditions do not meet
  (`HysteresisTrace.TracePropertyExactlyWhenDisjoint`).
- **Grouped mode drops queries.** After the first failed response of a request the remaining queries
  of that data source get no entry. Where a data source refuses the batch of a group exactly when it would
  refuse each of its queries, the two modes agree on all nodes if and only if no query is dropped, and an expression on a dropped query succeeds without its input
  (`GroupedRefinement.ModesAgreeExactlyWhenNothingSkipped`, `GroupedRefinement.SkippedInputGoesUnnoticed`).
- **Names are not those the fixer was chosen by.** A fixer is chosen because the columns have
  different names, but a frame with one value column is rewritten before its series is named: the
  series is called after the frame, where that has a name, as it is meant to be, or after the time
  column if that comes second, and loses a configured name when it is converted from another number
  type. The name labels are non-empty and pairwise different if and only if the names so given are
  (`SeriesNaming.IdentifiableExactlyWhenNamesTellApart`): frames of different names are told apart
  (`SeriesNaming.FrameNamesIdentify`), frames of one name are not
  (`SeriesNaming.CollidingFramesGetAFixer`, `SeriesNaming.SameNamedFramesCollide`).
- **Bare references stay.** A definition that is itself only a `$ref` is not chased
  (`SchemaProperties.NoRefExactlyWhenChased`).
- **Hidden entries are reset to a level.** An entry of the permission list is a set of actions, shown
  by the name of the largest level it contains. A hidden entry is set again by that name, so it keeps
  all its actions if and only if they are exactly those of View, Edit or Admin; otherwise it is cut
  down to its level without notice, or removed if it contains none
  (`Reconciliation.HiddenEntriesSurvive`, `Reconciliation.ExtraActionIsLost`).
- **Only what is listed is replaced.** A grantee that the permission list leaves out, for instance
  because it holds no action of any level, keeps what it has unless an item names it
  (`Reconciliation.StoreHoldsExactlyTheItems`).
- **A default without its spec.** The index correction also runs when no `spec` declaration was found,
  so the node before the default is moved, or the program panics if there is none
  (`SpecNode.IntendedExactlyWithSpec`).

## Model

| member | source | states |
|---|---|---|
| MathExp.PointwiseWalk | pkg/expr/mathexp/exp.go:89-141 | evaluating an expression over one variable acts on each labelled value by itself, sample by sample: always, but for a leading "no data", if the variable is not joined with itself, and else if label sets are pairwise incomparable and repeated times make no difference |
| MathExp.JoinYieldsOnePerValue | pkg/expr/mathexp/exp.go:205-307 | a variable joined with itself yields at least one value per value, and exactly one per value if and only if no two label sets are comparable |
| MathExp.SeriesSeriesAligned | pkg/expr/mathexp/exp.go:531-556 | two series with the same times combine sample by sample, none dropped, each left sample with the last right one of its time |
| MathExp.DistinctTimesAgree | pkg/expr/mathexp/exp.go:531-556 | without repeated times no join of an expression is disturbed |
| MathExp.JoinedWithItself | pkg/expr/mathexp/exp.go:205-397 | with incomparable label sets each value is joined with itself alone, with the exact result |
| MathExp.JoinLabelsMeaning | pkg/expr/mathexp/exp.go:263-281 | two label sets may be joined if and only if one contains the other, and the larger one labels the result |
| MathExp.LatestMeaning | pkg/expr/mathexp/exp.go:532-541 | joined by time, a sample meets the right one at the last position of that time |
| MathExp.JoinKeepsLabels | pkg/expr/mathexp/exp.go:205-397 | whatever the label sets, joining a variable with itself yields values labelled like values of the input |
| MathExp.NoDataHides | pkg/expr/mathexp/exp.go:247-259 | a leading "no data" is all that an operation with a literal leaves |
| Threshold.NewThresholdCommand | pkg/expr/threshold.go:37-57 | a command exactly for a supported function with enough arguments, otherwise the error that names the fault |
| Threshold.CompareMeaning | pkg/expr/threshold.go:26-31 | the four comparisons, strict on both sides, by the names they have in a query |
| Threshold.VerdictMeaning | pkg/expr/threshold.go:109-143 | a verdict keeps kind, labels and times, and is 1 or 0 as the comparison with the printed arguments holds or, inverted, does not |
| Threshold.VerdictsMeaning | pkg/expr/threshold.go:109-121 | one verdict per value, in the order of the values |
| Threshold.Comparison | pkg/expr/threshold.go:124-143 | all four functions compile to expressions over the reference variable alone, and only the two range functions join it with itself |
| Threshold.CompiledAt | pkg/expr/threshold.go:124-143 | the compiled expression, inverted or not, decides a number as the comparison with the printed arguments does |
| Threshold.ExecuteIsPointwise | pkg/expr/threshold.go:109-121 | executing a threshold on separable input gives each value its own verdict, labels and times unchanged |
| Threshold.RangeIsTwofold | pkg/expr/threshold.go:130-133 | what a range function makes of values with incomparable labels: one half sees the sample, the other the last one of its time |
| Threshold.PointwiseExactlyWhenSeparable | pkg/expr/threshold.go:109-143 | for every input, one verdict per value, in order or as a multiset, if and only if no other value follows a leading "no data" and a range function meets no comparable label sets and no repeated time that matters |
| Threshold.ExecuteKeepsLabels | pkg/expr/threshold.go:109-121 | for every input, each output is labelled like some input value |
| Threshold.PrintedNear | pkg/expr/threshold.go:126-137 | a printed argument is within half a millionth of the argument, and equal to it exactly for whole millionths |
| Threshold.PrintedMonotone | pkg/expr/threshold.go:126-137 | printing keeps the order of two arguments, or makes them equal |
| Threshold.CompilationBound | pkg/expr/threshold.go:124-143 | compiled and direct threshold agree further than 0.5e-6 from each argument, and everywhere for whole millionths |
| Threshold.CompilationError | pkg/expr/threshold.go:126-137 | for all four functions the exact set of numbers decided wrongly: between an argument and its printed form, unless the other half of a range decides anyway or errs alike |
| Threshold.CompiledExactly | pkg/expr/threshold.go:126-137 | for all four functions, no number is decided wrongly if and only if the arguments are whole counts of millionths, or nothing is within the range, or everything is outside it before and after printing |
| Fingerprints.FromFrame | pkg/expr/hysteresis.go:93-122 | succeeds exactly on frames of the right type, version and shape, with the set of the listed fingerprints; which error otherwise |
| Fingerprints.ToFrame | pkg/expr/hysteresis.go:125-136 | a readable frame that lists each fingerprint of the set once, whatever the visiting order |
| Fingerprints.RoundTrip | pkg/expr/hysteresis.go:93-136 | writing a set to a frame and reading it back succeeds with the same set |
| Hysteresis.Unmarshal | pkg/expr/threshold.go:65-101 | exactly the parsable configurations are parsed, and exactly an insufficient unload evaluator makes the program panic; a hysteresis command results exactly with the feature and an unload evaluator, its two thresholds share the reference variable, unloading is inverted, the frame's dimensions are loaded |
| Hysteresis.Execute | pkg/expr/hysteresis.go:34-78 | on every path the variable map is back to its entry value, although the reference entry is overwritten twice; the outcome is the map-free meaning |
| Hysteresis.SideOneMore | pkg/expr/hysteresis.go:44-52 | value by value, in their order, each goes to the side its labels' fingerprint puts it on |
| Hysteresis.RulesMeaning | pkg/expr/hysteresis.go:34-78 | the rule for a value is the verdict of the unloading command where the fingerprint of its labels is loaded, of the loading one elsewhere |
| Hysteresis.ReadsOnlyReference | pkg/expr/hysteresis.go:30-78 | two variable maps with the same reference entry give the same outcome |
| Hysteresis.MeaningIsSides | pkg/expr/hysteresis.go:34-78 | for every input with data, all four paths yield the loading threshold on the values not loaded followed by the unloading threshold on the rest |
| Hysteresis.NoDataIsKept | pkg/expr/hysteresis.go:35-40 | a reference that is absent, empty or just "no data" gives exactly "no data", without error |
| Hysteresis.SideValuesStay | pkg/expr/hysteresis.go:44-77 | for every input, by their labels the outputs of one side never mix with those of the other |
| Hysteresis.MeaningIsRule | pkg/expr/hysteresis.go:34-78 | on all four paths the output is, as a multiset, the load threshold on values not loaded and the inverted unload threshold on the rest, if and only if each threshold is separable on its own side; then unloaded values come first |
| HysteresisQuery.RawQuery.SetLoadedDimensions | pkg/expr/threshold.go:181-227 | succeeds exactly on hysteresis queries, writes a frame with exactly the given fingerprints into the one condition and nothing else, and changes nothing on error |
| HysteresisQuery.RawQuery.Parse | pkg/expr/threshold.go:65-101 | parsing a stored query gives the command it describes |
| HysteresisQuery.RawQuery.Reload | pkg/expr/threshold.go:181-192 | a query with new loaded dimensions describes the same command with exactly these loaded |
| HysteresisTrace.OneStep | pkg/expr/hysteresis.go:16-21 | one evaluation decides a dimension by its own number, or its absence, and its own loaded state |
| Intervals.ApartExactlyWhenNeverBoth | pkg/expr/threshold.go:124-137 | two threshold functions accept a common number exactly when two of their intervals meet |
| HysteresisTrace.DisjointExactlyWhenNeverBoth | pkg/expr/hysteresis.go:16-21 | whether load and unload condition ever hold together can be read off the printed arguments |
| HysteresisTrace.FiresExactlyWhenLoadedSince | pkg/expr/hysteresis.go:16-78 | with disjoint conditions a dimension fires at step t of any history if and only if it was loaded at some s <= t, or to begin with, and at every step since it was present and not unloaded |
| HysteresisTrace.TracePropertyExactlyWhenDisjoint | pkg/expr/hysteresis.go:16-78 | that holds for all histories of a dimension, absences included and whatever is loaded to begin with, if and only if the two conditions are disjoint |
| HysteresisTrace.Evaluate | pkg/expr/hysteresis.go:34-136 | one turn parses the stored query, runs the command and leaves a query whose loaded set is what fired |
| HysteresisTrace.EvaluateAll | pkg/expr/hysteresis.go:34-136 | evaluating a history turn by turn gives exactly the outputs of the trace property |
| TopoSort.SortedOrder | pkg/expr/graph.go:163-175 | the returned order is a permutation with every edge forward, and ids without incoming edge keep their order |
| TopoSort.OrderedIsAcyclic | pkg/expr/graph.go:163-175 | a graph with a topological order has no cycle of any length |
| TopoSort.SortedExactlyWhenAcyclic | pkg/expr/graph.go:163-168 | an order is returned if and only if there is no cycle of any length |
| Graph.BuildGraph | pkg/expr/graph.go:193-249 | one node per query with its index as id, or the fault of the first query that gets none |
| Graph.QueryFaultMeaning | pkg/expr/graph.go:193-246 | a query gets a node if and only if it names a data source, decodes, reads, and machine learning is enabled where it asks for it; which fault is reported otherwise |
| Graph.BuildNodeRegistry | pkg/expr/graph.go:178-190 | each reference id of the graph leads to a node that bears it, whatever the visiting order |
| Graph.RegistryIsByRef | pkg/expr/graph.go:178-190 | with unique reference ids the registry does not depend on the visiting order |
| Graph.AddEdgesInto | pkg/expr/graph.go:266-291 | one edge per needed variable, or a fault of one of them |
| Graph.EdgeFaultMeaning | pkg/expr/graph.go:266-287 | which fault a reference from one query to another has, by the two queries: itself, no data source query for a classic condition, a classic condition for anything |
| Graph.ReadableExactlyWhenNoFault | pkg/expr/graph.go:266-287 | a name may be read if and only if some other query that bears it may be, and is reported missing if and only if none bears it |
| Graph.BuildGraphEdges | pkg/expr/graph.go:252-294 | succeeds exactly when no reference is missing, to itself, or against the rules for classic conditions; then the edges are exactly the references |
| Graph.BuildDependencyGraph | pkg/expr/graph.go:145-158 | succeeds exactly when no query and no reference is faulty, with the nodes and references of the request |
| Graph.BuildExecutionOrder | pkg/expr/graph.go:163-175 | succeeds exactly on graphs without cycles, with the nodes in the sorted order |
| Graph.SortedPipeline | pkg/expr/graph.go:163-175 | sorting a faultless acyclic request gives each node once, inputs before users, data source queries in request order |
| Graph.BuildPipeline | pkg/expr/graph.go:126-142 | a pipeline exactly for acceptable requests: its nodes each once, inputs first, queries in request order; otherwise the first faulty query, else a faulty reference, else the cycle |
| Graph.EdgesAreReadings | pkg/expr/graph.go:252-294 | the edges of a request lead from each query to the expressions that read it |
| Graph.AcceptableMeaning | pkg/expr/graph.go:126-294 | a request is acceptable if and only if every query gets a node, every name an expression reads is borne by another query it may read, and no expression reads itself through others |
| Pipeline.ExecuteNode | pkg/expr/nodes.go:96-98 | executing a node leaves the shared map as it was, hysteresis commands included, and yields the node's outcome on it |
| Pipeline.ExecuteNodes | pkg/expr/graph.go:78-121 | the loop with its dependency check computes the run, entry by entry, and its error |
| Pipeline.StepReadsNeeded | pkg/expr/graph.go:84-119 | what is stored for a node depends on its needed variables only |
| Pipeline.RunIsEval | pkg/expr/graph.go:61-122 | any arrangement with inputs first leaves exactly the recursive meaning of each node over its inputs, and no error |
| Pipeline.EvalIgnoresRank | pkg/expr/graph.go:61-122 | that meaning does not depend on how acyclicity is witnessed |
| Pipeline.RunsAgree | pkg/expr/graph.go:61-122 | confluence: two arrangements of the same nodes leave the same results |
| Pipeline.ErrorHasOrigin | pkg/expr/graph.go:83-119 | an entry carries an error if and only if some node among it and its transitive inputs has no failed input, and returned an error or results that carry one |
| Pipeline.FailurePropagation | pkg/expr/graph.go:78-120 | over a whole run: errors stem exactly from executed nodes that returned them, a failed direct input gives exactly the dependency error of the first one, and every other entry holds the returned values with the returned error |
| Grouped.GroupByDatasource | pkg/expr/nodes.go:210-219 | the groups partition the queries by data source and organisation |
| Grouped.GroupKeepsOrder | pkg/expr/nodes.go:215-219 | within a group the queries stand exactly as in the pipeline |
| Grouped.StoreFailure | pkg/expr/nodes.go:228-231 | one error for every query of a group, everything else unchanged |
| Grouped.StoreResponses | pkg/expr/nodes.go:284-299 | responses are stored in order up to and including the first failed one |
| Grouped.ExecuteGroup | pkg/expr/nodes.go:222-300 | what one request adds to the map |
| Grouped.ServeGroup | pkg/expr/nodes.go:221-301 | one more group adds exactly its own entries to those already served |
| Grouped.ExecuteDSNodesGrouped | pkg/expr/nodes.go:209-302 | the entries of all groups are added, independently of the visiting order of the groups |
| Grouped.CollectQueries | pkg/expr/graph.go:67-73 | the data source nodes of the pipeline in its order |
| Grouped.ExecutePipeline | pkg/expr/graph.go:61-122 | both modes: the run from the grouped entries without queries, or from nothing with them |
| GroupedRefinement.AnswerInBatch | pkg/expr/nodes.go:250-290 | a query gets the same response in the batch of its group as alone |
| GroupedRefinement.GroupedEntry | pkg/expr/nodes.go:226-299 | where batches are refused like their queries: an accepted query gets exactly its per-node results unless an earlier query of its group failed, then nothing; a refused request stores an error where per-node mode does |
| GroupedRefinement.GroupedRunSettled | pkg/expr/graph.go:65-121 | a grouped run holds the group entries and, for every expression, what it yields on the final variables |
| GroupedRefinement.GroupedRunsAgree | pkg/expr/graph.go:65-121 | confluence of the second mode: two arrangements of the same nodes that keep the order of the queries leave the same results |
| GroupedRefinement.PipelineQueries | pkg/expr/graph.go:160-175 | every pipeline of a request has its queries in the order of the request |
| GroupedRefinement.ReachedNodesAgree | pkg/expr/graph.go:61-122 | where no skipped query is involved, both modes store the same for expressions, and for queries the same up to the wording of a request-level error |
| GroupedRefinement.ModesAgreeExactlyWhenNothingSkipped | pkg/expr/nodes.go:284-290 | where batches are refused like their queries, the modes agree on every node if and only if no query is skipped |
| GroupedRefinement.SkippedInputGoesUnnoticed | pkg/expr/graph.go:85-95 | an expression whose input was skipped gets no dependency error: a threshold succeeds without values, hysteresis reports no data |
| RunMeaning.HysteresisNodeStoresRules | pkg/expr/nodes.go:96-98 | in any run of either mode a hysteresis node stores, without error, the rule of its own command and loaded set applied to each stored value of its reference, if and only if each threshold is separable on its side; no data for none |
| RunMeaning.ThresholdNodeStoresVerdicts | pkg/expr/nodes.go:96-98 | a threshold node stores, without error, one verdict per stored value of its reference if and only if these are separable |
| RunMeaning.CommandNodeStoresOutcome | pkg/expr/nodes.go:96-98 | any other command stores what it yields on exactly the stored results of the variables it reads |
| RunMeaning.CallNodeStoresOutcome | pkg/expr/graph.go:109-119 | a machine-learning node stores what its call returns, with the returned error |
| RunMeaning.FailedInputStopsNode | pkg/expr/graph.go:83-100 | an expression that reads a result with an error stores the dependency error of the first such input, in either mode |
| RunMeaning.QueryNodeStoresAnswer | pkg/expr/nodes.go:307-366 | a query on its own stores the error of its context, the refusal of its request, the query error of a failed answer, no data for an answer without frames, or all frames converted, a failure wrapped as conversion error |
| RunMeaning.GroupedQueryNodeStoresAnswer | pkg/expr/nodes.go:209-302 | a query of a group stores the one error of a request that is not carried out, nothing after a failed answer to an earlier query of its data source, and otherwise what its own answer demands |
| Transform.HiddenRefIDs | pkg/expr/transform.go:122-139 | the reference ids of the hidden queries, or an error exactly when some query does not decode |
| Transform.RunRequest | pkg/expr/transform.go:91-100 | building and executing succeed exactly for acceptable requests; execution never fails as a whole |
| Transform.PipelinesAgree | pkg/expr/graph.go:61-175 | two pipelines of one request leave the same results in either mode |
| Transform.TransformData | pkg/expr/transform.go:68-120 | a response exactly for enabled, acceptable, decodable requests; per node it holds the recursive meaning of each visible node, grouped what the grouped run of any pipeline of the request leaves, without hidden nodes |
| Transform.ResponseIsShownRun | pkg/expr/transform.go:91-117 | the response holds, for exactly the queries that are not hidden, what a run of any pipeline of the request leaves |
| Transform.GroupedResponseIsShownRun | pkg/expr/transform.go:91-117 | in grouped mode, those of these results that were stored at all |
| Transform.AcceptableIsRanked | pkg/expr/graph.go:163-175 | the references of an acceptable request strictly decrease some rank, so its recursive meaning exists |
| WideSeries.SeriesFromFrame | pkg/expr/mathexp/type_series.go:27-129 | rewrites the frame itself into time column and nullable value column named after the frame; which frames are refused, with which error, and what is left of them |
| WideSeries.SeriesOfMeaning | pkg/expr/mathexp/type_series.go:27-129 | a frame is a series exactly when one of its two columns is a time column without null and the other can hold values; both columns keep their cells |
| WideSeries.CopyColumn | pkg/expr/nodes.go:600-614 | a new frame with the time and value cells of a column, row by row, without the time column's labels and configuration |
| WideSeries.ColumnMeaning | pkg/expr/mathexp/type_series.go:27-129 | a value column yields a series unless a timestamp is null, it is empty and of another number type, or it is the only one among several other columns; labels and cells stay, the frame's name goes before its own, another number type loses its configuration |
| WideSeries.ConvertSingle | pkg/expr/nodes.go:588-597 | the series of a frame with one value column is that frame, rewritten, and its name is read after the rewriting |
| WideSeries.WideToMany | pkg/expr/nodes.go:582-626 | one series per value column in their order, distinct frames, fixed as specified, or an error exactly when some column does not convert |
| SeriesNaming.TrySelector | pkg/expr/nodes.go:675-684 | whether a selector names all columns, each differently |
| SeriesNaming.CheckIfSeriesNeedToBeFixed | pkg/expr/nodes.go:632-694 | a fixer by the first selector in precedence order that identifies all columns; none exactly when the source is not eligible, a column has labels, or no selector identifies |
| SeriesNaming.FixerMeaning | pkg/expr/nodes.go:632-694 | for the two kinds of source and columns without labels the fixer goes by the first of three lists of names that tells all columns apart: by the data source, by configuration, their own; otherwise there is none |
| SeriesNaming.FilterFrames | pkg/expr/nodes.go:430-446 | keeps the wide frames in order; an error exactly when a frame is refused |
| SeriesNaming.KeptOneMore | pkg/expr/nodes.go:430-446 | frame by frame, wide frames are kept in their order and others not |
| SeriesNaming.ConvertWide | pkg/expr/nodes.go:430-470 | the series of all kept frames with the fixer chosen from the frames as they came; errors exactly from refused frames and columns that do not convert |
| SeriesNaming.SplitIsLossless | pkg/expr/nodes.go:599-625 | the columns of a frame can be rebuilt row for row from its series, named or not |
| SeriesNaming.SeriesCount | pkg/expr/nodes.go:445-463 | all kept frames together yield exactly totalLen series |
| SeriesNaming.SeriesAt | pkg/expr/nodes.go:454-463 | the series stand frame by frame, and within a frame column by column, each finished for its own frame |
| SeriesNaming.NameReadInStep | pkg/expr/nodes.go:588-595 | the exact condition under which each series of a frame gets the name of its column |
| SeriesNaming.NamesFollowFieldsExactlyInStep | pkg/expr/nodes.go:685-690 | all series bear the names the fixer was chosen by if and only if all frames are in step |
| SeriesNaming.SeriesBearNamesGiven | pkg/expr/nodes.go:588-621 | the only label of each series is `__name__`, with the name that can be read off its frame as it came |
| SeriesNaming.IdentifiableExactlyWhenNamesTellApart | pkg/expr/nodes.go:628-631 | all name labels are non-empty and pairwise different if and only if the names given are |
| SeriesNaming.FixedSeriesAreIdentifiable | pkg/expr/nodes.go:628-631 | a chosen fixer makes all series identifiable if and only if the names given tell them apart, and always if all frames are in step |
| SeriesNaming.FrameNamesIdentify | pkg/expr/nodes.go:588-595 | two named frames with one value column each: their series bear the frames' names, and are identifiable if and only if these differ |
| SeriesNaming.CollidingFramesGetAFixer | pkg/expr/nodes.go:673-691 | a family of frames for which a fixer by column name is chosen |
| SeriesNaming.SameNamedFramesCollide | pkg/expr/nodes.go:588-595 | and whose series nevertheless all get the name of the frame |
| SchemaResolver.ResolvePlace | pkg/codegen/jenny_docs.go:208-221 | what is left at a place is the one the specification gives: the resolved schema, or the resolved copy of the definition referred to |
| SchemaResolver.ResolveSubSchema | pkg/codegen/jenny_docs.go:280-309 | the parent takes the part's required names before, and its properties after resolving it, each marked with the part's title |
| SchemaResolver.InheritProperties | pkg/codegen/jenny_docs.go:302-306 | the part's properties override the parent's, whatever the visiting order |
| SchemaResolver.ResolveProperties | pkg/codegen/jenny_docs.go:208-221 | every property resolved, whatever the visiting order, or an error exactly when one cannot be |
| SchemaResolver.ResolveParts | pkg/codegen/jenny_docs.go:238-260 | the parts merged one after the other, later ones overriding; titles recorded for allOf only |
| SchemaResolver.ResolveComposition | pkg/codegen/jenny_docs.go:238-260 | allOf before oneOf, both merged into the schema |
| SchemaResolver.ResolveSchema | pkg/codegen/jenny_docs.go:207-278 | where the definitions that are reached are ranked, terminates by rank, then size; fails exactly when a followed reference cannot be loaded; otherwise yields the resolved schema |
| Chains.AcyclicIsRanked | pkg/codegen/jenny_docs.go:207-348 | what is reached over links without meeting a cycle can be ranked |
| ReferenceCycles.RefsBelowMeaning | pkg/codegen/jenny_docs.go:208-275 | the references followed below a schema are bounded exactly when all definitions referred to from its places are |
| ReferenceCycles.RankableExactlyWhenNotEndless | pkg/codegen/jenny_docs.go:207-348 | a schema can be resolved by rank if and only if no reference it reaches lies on a cycle; definitions that are not reached do not matter |
| ReferenceCycles.ResolveDocument | pkg/codegen/jenny_docs.go:203-278 | such a schema is resolved to the one outcome that all its rankings give |
| SchemaProperties.ResolvedComposed | pkg/codegen/jenny_docs.go:280-309 | at every depth a resolved schema has all property keys of each part |
| SchemaProperties.ComposedHasTransitiveKeys | pkg/codegen/jenny_docs.go:302-306 | hence the keys of all transitive parts |
| SchemaProperties.ResolvedKeys | pkg/codegen/jenny_docs.go:207-278 | its keys are its own and those of its transitive parts, read off the document, and no others |
| SchemaProperties.ComposedProperty | pkg/codegen/jenny_docs.go:238-260 | which definition of a property wins: last oneOf part, else last allOf part, else its own |
| SchemaProperties.RequiredRisesOneLevel | pkg/codegen/jenny_docs.go:289-296 | a resolved schema requires its own names and those of its direct parts as the document has them, and nothing that only a part of a part requires |
| SchemaProperties.NoRefExactlyWhenChased | pkg/codegen/jenny_docs.go:207-278 | no reference is left anywhere below if and only if no reference that leaves a trace leads to a bare reference |
| SchemaProperties.PlainDefinitionsResolveCompletely | pkg/codegen/jenny_docs.go:207-348 | if no definition that is reached is a bare reference, nothing of a reference is left |
| SchemaProperties.BareReferenceStays | pkg/codegen/jenny_docs.go:223-236 | a reference to a bare reference is replaced by that one, which stays |
| SchemaProperties.ResolveIgnoresRank | pkg/codegen/jenny_docs.go:207-278 | the outcome does not depend on how acyclicity is witnessed |
| SchemaMeaning.BaseOfPath | pkg/codegen/jenny_docs.go:345 | the last element of a pointer, slashes at its end left aside, is the title of the copy |
| SchemaMeaning.ResolvedMeans | pkg/codegen/jenny_docs.go:207-348 | what resolving leaves is related to the schema place by place: at a reference stands the resolved form of the definition in the document, retitled; each property is that of the last oneOf part with its key, else of the last allOf part, else the resolved own one; required names and bases are those of the direct parts; items and additional properties are resolved |
| SchemaMeaning.MeansUnique | pkg/codegen/jenny_docs.go:207-348 | no other schema is so related: the document determines the result |
| SchemaMeaning.ResolvesExactlyWhenLoadable | pkg/codegen/jenny_docs.go:207-348 | resolving succeeds if and only if every reference that is followed leads to a definition of the document |
| SchemaProperties.TitleLeavesKeys | pkg/codegen/jenny_docs.go:344-345 | retitling the copy changes none of its keys |
| Permissions.NameOfLevel | pkg/services/accesscontrol/resourcepermissions/service.go:261-268 | the level an action set is named by is contained in it, equals it exactly for the levels themselves, and has the same name |
| Permissions.NamesAndNumbers | pkg/services/dashboards/dashboardaccess/dashboard_access.go:9-22 | View, Edit and Admin are 1, 2 and 4; no other number has a name, and no other name a number |
| Permissions.GranteeMeaning | pkg/api/dashboard_permission.go:257-270 | items and entries are about the user if there is one, else the team, else the role |
| Permissions.AdmissibleMeaning | pkg/services/accesscontrol/resourcepermissions/service.go:220-238 | a command for an item or entry is carried out exactly when its user, team or role is known |
| Permissions.Store.SetResourcePermission | pkg/services/accesscontrol/resourcepermissions/store.go:235-284 | inserting the missing and deleting all other actions leaves a grantee exactly the given ones, and every other grantee alone |
| Permissions.Store.SetPermissions | pkg/services/accesscontrol/resourcepermissions/service.go:211-259 | all commands are checked before the first is applied; then each sets its grantee to the actions of its level, in order, or none is |
| Permissions.UpdateAccessControl | pkg/api/dashboard_permission.go:255-314 | the nested loops send one set command per item and one remove command per old entry without matching item, in this order |
| Permissions.FilterHiddenACL | pkg/api/dashboard_permission.go:225-252 | returned are exactly the entries set directly, with a login other than the caller's and among the hidden users; none for a Grafana admin |
| Permissions.HiddenItemsOneMore | pkg/api/dashboard_permission.go:232-249 | entry by entry, in their order, with all their fields |
| Permissions.ValidatePermissionsUpdate | pkg/api/dashboard_permission.go:316-327 | rejected exactly when some item names two kinds of grantee |
| Permissions.UpdatePermissions | pkg/api/dashboard_permission.go:119-169 | hidden entries behind the requested ones, applied as a whole or not at all |
| Reconciliation.AfterSets | pkg/services/accesscontrol/resourcepermissions/store.go:201-231 | set commands in order leave each grantee exactly the actions of the level of its last item |
| Reconciliation.LastPermissionMeaning | pkg/api/dashboard_permission.go:257-270 | what is asked for a grantee is the permission of its last item |
| Reconciliation.AfterRemoves | pkg/api/dashboard_permission.go:272-301 | remove commands take away exactly the unmatched old grantees |
| Reconciliation.MatchesIsSameGrantee | pkg/api/dashboard_permission.go:275-286 | for admissible items the three comparisons amount to comparing grantees |
| Reconciliation.StoreHoldsExactlyTheItems | pkg/api/dashboard_permission.go:255-314 | each grantee ends up with exactly the actions of its last item; a listed one without item with none; one that is not listed with what it had |
| Reconciliation.NobodyElseHoldsAnything | pkg/api/dashboard_permission.go:255-314 | against a list that leaves out nobody holding an action of some level, exactly the grantees of the items are left with such actions |
| Reconciliation.HiddenEntriesSurvive | pkg/api/dashboard_permission.go:143-166 | whatever is requested, an entry set directly for a hidden user other than the caller keeps its name and gains no action; it keeps all actions if and only if they are exactly those of a level, and none if and only if it has no name |
| Reconciliation.ExtraActionIsLost | pkg/services/accesscontrol/resourcepermissions/store.go:251-267 | a hidden entry with the actions of Edit and one more is named Edit and loses that one |
| Reconciliation.OthersAreAsRequested | pkg/api/dashboard_permission.go:143-166 | every grantee without an entry of that kind ends up as the last requested item says; without one, listed grantees with nothing |
| Reconciliation.Update | pkg/api/dashboard_permission.go:119-169 | an update on a live store is one of those the three results above speak of |
| SpecNode.RenameNodes | pkg/codegen/jenny_ts_resources.go:44-72 | panics exactly on a variable without name or a default whose type is no transform; else spec and default are renamed in place, all other nodes untouched, and the last position of each is reported |
| SpecNode.RenameMeaning | pkg/codegen/jenny_ts_resources.go:51-71 | spec gets the new name; its default the new name behind "default" and in its type; all other nodes stay as they are |
| SpecNode.MoveNodes | pkg/codegen/jenny_ts_resources.go:74-84 | the two moves with the index correction, in all four cases, and when they panic |
| SpecNode.MovesCompose | pkg/codegen/jenny_ts_resources.go:74-84 | moving one position and then the corrected other one leaves all other elements in order |
| SpecNode.RenameSpecNode | pkg/codegen/jenny_ts_resources.go:43-85 | on every file, when the program panics and what it otherwise leaves |
| SpecNode.ActualIsPermutation | pkg/codegen/jenny_ts_resources.go:74-84 | the renamed nodes are only permuted, whichever of the two declarations exist |
| SpecNode.StableDoubleMove | pkg/codegen/jenny_ts_resources.go:43-85 | with both declarations the others keep their relative order, followed by spec and then its default |
| SpecNode.IntendedExactlyWithSpec | pkg/codegen/jenny_ts_resources.go:78-84 | the intended arrangement results if and only if a spec exists, or there is no default, or the node before it is its equal |

## Left out

Assumptions about the surroundings:

- Data sources answer each query independently of the batch it is sent in (`World`); whether they
  refuse a request may depend on the batch, and the agreement of the two modes is stated for data
  sources that refuse a batch exactly when they refuse each of its queries.
- The data source queries of a pipeline stem from one request, and data source uid, id and
  organisation together identify a data source (`GroupedRefinement.SharedContext`).
- In the history results each threshold is separable on its side at each step, and a dimension has
  at most one number per step.
- Reference ids of a request are pairwise distinct; the code does not check this, and the registry
  would keep one of two namesakes.
- The gonum library's sort is written here as a depth-first search over descending ids; only its
  proved contract is used.
- The schema analysis of data frames is a parameter that is assumed to report a time column and
  value columns that are not time columns.
- User and team ids are positive, no role has an empty name, and each permission level adds actions
  to the one below; the current permission list is read from the managed content of the store, at
  most one entry per grantee.

Not modelled:

- Evaluation of math, reduce, resample and classic-condition commands and of machine-learning calls:
  each is a function of the variables the command needs.
- Columns of wide frames that are neither times nor numbers.
- Null and NaN samples of expressions, float64 rounding (numbers are reals), and the parsing of the
  printed expression text (expressions are trees, literals whole millionths).
- The errors of `NewMathCommand` on reference ids that do not parse.
- Notices about dropped values, metrics, tracing, logging, and the wording of errors.
- JSON decoding of queries: the decoded content, or an error, is part of the query.
- Dataplane frames, Prometheus vectors, untyped empty frames and numeric tables, which
  `convertDataFramesToResults` treats before the part modelled here.
- Pointer sharing between merged properties of a resolved schema; the resolver works on values.
- Resolving schemas that reach a cycle of references: unless a reference that cannot be loaded comes
  first, the code does not return.
- HTTP handlers, the query that reads the permission list, SQL and the hooks of the permission
  store, and the folder branch of the reconciler.
- Markdown rendering and the other code generators.

Stated more weakly than one might expect:

- SpecNode.RenameSpecNode: says when the program panics, and nothing about the list of nodes after that.
- Graph.BuildGraphEdges: which of several faulty references is reported is left open, as the visiting order is.
- GroupedRefinement.ReachedNodesAgree: a request-level error counts as equal to the per-node error, since the first query of the group speaks for all.
