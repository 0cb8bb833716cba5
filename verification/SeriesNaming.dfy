/**
 * Turning the wide frames of a response into series (pkg/expr/nodes.go): which series are given
 * a name, what is lost and what is kept, and when the names tell the series apart.
 */
module SeriesNaming {
  import opened Basics
  import opened WideSeries

  const DS_GRAPHITE := "graphite"
  const DS_TESTDATA := "grafana-testdata-datasource"
  const DS_INFLUXDB := "influxdb"

  // ---------------------------------------------------------------- choosing a fixer

  /** The value columns of one table. */
  function ValueFields(t: Table, s: Schema): (fs: seq<Field>)
    requires WellFormed(t, s)
    ensures |fs| == |s.valueIndices|
  {
    seq(|s.valueIndices|, i requires 0 <= i < |s.valueIndices| => ValueField(t, s, i))
  }

  ghost predicate AllWellFormed(ts: seq<Table>, schemaOf: seq<Field> -> Schema) {
    forall k :: 0 <= k < |ts| ==> WellFormed(ts[k], schemaOf(ts[k].fields))
  }

  /** The value columns of all tables, in order. */
  function AllValueFields(ts: seq<Table>, schemaOf: seq<Field> -> Schema): seq<Field>
    requires forall k :: 0 <= k < |ts| ==> WellFormed(ts[k], schemaOf(ts[k].fields))
  {
    if ts == [] then []
    else
      var last := ts[|ts| - 1];
      AllValueFields(ts[..|ts| - 1], schemaOf) + ValueFields(last, schemaOf(last.fields))
  }

  /** A selector names all fields, each differently. */
  ghost predicate Identifies(sel: Selector, fs: seq<Field>) {
    && (forall i :: 0 <= i < |fs| ==> Select(sel, fs[i]) != "")
    && (forall i, j :: 0 <= i < j < |fs| ==> Select(sel, fs[i]) != Select(sel, fs[j]))
  }

  predicate Eligible(dsType: string) {
    dsType == DS_GRAPHITE || dsType == DS_TESTDATA
  }

  ghost predicate Unlabelled(fs: seq<Field>) {
    forall i :: 0 <= i < |fs| ==> |fs[i].labels| == 0
  }

  /** The first selector, in precedence order, that names all fields differently. */
  ghost predicate FirstIdentifying(sel: Selector, fs: seq<Field>) {
    && Identifies(sel, fs)
    && (sel != DisplayNameFromDS ==> !Identifies(DisplayNameFromDS, fs))
    && (sel == FieldName ==> !Identifies(DisplayName, fs))
  }

  /** Tries one selector on the value fields. */
  method TrySelector(sel: Selector, valueFields: seq<Field>) returns (good: bool)
    ensures good <==> Identifies(sel, valueFields)
  {
    var names: set<string> := {};
    for i := 0 to |valueFields|
      invariant Identifies(sel, valueFields[..i])
      invariant names == set k | 0 <= k < i :: Select(sel, valueFields[k])
    {
      var name := Select(sel, valueFields[i]);
      if name in names || name == "" {
        return false;
      }
      names := names + {name};
    }
    assert valueFields[..|valueFields|] == valueFields;
    return true;
  }

  ghost function ContentsOf(frames: seq<Frame>): (ts: seq<Table>)
    reads frames
    ensures |ts| == |frames|
  {
    seq(|frames|, k requires 0 <= k < |frames| reads frames => frames[k].Contents())
  }

  /** All value fields of one frame behind those already collected, or None at the first labelled one. */
  method CollectFields(t: Table, tsSchema: Schema, collected: seq<Field>) returns (r: Option<seq<Field>>)
    requires WellFormed(t, tsSchema) && Unlabelled(collected)
    ensures r.Some? ==> r.value == collected + ValueFields(t, tsSchema) && Unlabelled(r.value)
    ensures r.None? ==> !Unlabelled(ValueFields(t, tsSchema))
  {
    var valueFields := collected;
    for i := 0 to |tsSchema.valueIndices|
      invariant valueFields == collected + ValueFields(t, tsSchema)[..i] && Unlabelled(valueFields)
    {
      var field := t.fields[tsSchema.valueIndices[i]];
      if |field.labels| > 0 {
        assert ValueFields(t, tsSchema)[i] == field;
        return None;
      }
      valueFields := valueFields + [field];
    }
    return Some(valueFields);
  }

  /** All value fields of all frames, or None if one of them has labels. */
  method CollectAllFields(frames: seq<Frame>, schemaOf: seq<Field> -> Schema) returns (r: Option<seq<Field>>)
    requires AllWellFormed(ContentsOf(frames), schemaOf)
    ensures r.Some? <==> Unlabelled(AllValueFields(ContentsOf(frames), schemaOf))
    ensures r.Some? ==> r.value == AllValueFields(ContentsOf(frames), schemaOf)
  {
    var valueFields: seq<Field> := [];
    ghost var ts := ContentsOf(frames);
    for k := 0 to |frames|
      invariant valueFields == AllValueFields(ts[..k], schemaOf) && Unlabelled(valueFields)
    {
      assert ts[k] == frames[k].Contents() && ts[..k + 1][..k] == ts[..k];
      r := CollectFields(frames[k].Contents(), schemaOf(frames[k].fields), valueFields);
      if r.None? {
        LabelledTable(ts, schemaOf, k);
        return;
      }
      valueFields := r.value;
    }
    assert ts[..|frames|] == ts;
    return Some(valueFields);
  }

  /** checkIfSeriesNeedToBeFixed. */
  method CheckIfSeriesNeedToBeFixed(frames: seq<Frame>, schemaOf: seq<Field> -> Schema, dsType: string) returns (r: Option<Selector>)
    requires AllWellFormed(ContentsOf(frames), schemaOf)
    ensures FixerFor(dsType, AllValueFields(ContentsOf(frames), schemaOf), r)
  {
    if !Eligible(dsType) {
      return None;
    }
    var valueFields := CollectAllFields(frames, schemaOf);
    if valueFields.None? {
      return None;
    }
    var nameSelectors := [DisplayNameFromDS, DisplayName, FieldName];
    for k := 0 to |nameSelectors|
      invariant forall m :: 0 <= m < k ==> !Identifies(nameSelectors[m], valueFields.value)
    {
      var good := TrySelector(nameSelectors[k], valueFields.value);
      if good {
        assert k > 0 ==> !Identifies(nameSelectors[0], valueFields.value);
        assert k > 1 ==> !Identifies(nameSelectors[1], valueFields.value);
        return Some(nameSelectors[k]);
      }
    }
    forall sel ensures !Identifies(sel, valueFields.value) {
      var m := match sel case DisplayNameFromDS => 0 case DisplayName => 1 case FieldName => 2;
      assert nameSelectors[m] == sel;
    }
    return None;
  }

  lemma {:induction false} LabelledTable(ts: seq<Table>, schemaOf: seq<Field> -> Schema, k: nat)
    requires AllWellFormed(ts, schemaOf) && k < |ts| && !Unlabelled(ValueFields(ts[k], schemaOf(ts[k].fields)))
    ensures !Unlabelled(AllValueFields(ts, schemaOf))
  {
    var front := ts[..|ts| - 1];
    var last := ts[|ts| - 1];
    var fs, own := AllValueFields(front, schemaOf), ValueFields(last, schemaOf(last.fields));
    if k < |front| {
      LabelledTable(front, schemaOf, k);
      var j :| 0 <= j < |fs| && |fs[j].labels| != 0;
      assert (fs + own)[j] == fs[j];
    } else {
      var j :| 0 <= j < |own| && |own[j].labels| != 0;
      assert (fs + own)[|fs| + j] == own[j];
    }
  }

  /** The names columns have by the data source, by configuration, and of their own; empty where there is no configuration. */
  function NamesByDS(fs: seq<Field>): seq<string> {
    seq(|fs|, i requires 0 <= i < |fs| => if fs[i].config.Some? then fs[i].config.value.displayNameFromDS else "")
  }

  function NamesByConfig(fs: seq<Field>): seq<string> {
    seq(|fs|, i requires 0 <= i < |fs| => if fs[i].config.Some? then fs[i].config.value.displayName else "")
  }

  function OwnNames(fs: seq<Field>): seq<string> {
    seq(|fs|, i requires 0 <= i < |fs| => fs[i].name)
  }

  ghost predicate TellApart(names: seq<string>) {
    "" !in names && Distinct(names)
  }

  /** Which fixer is chosen: by the first list of names that tells all columns apart, for two kinds of source and columns without labels. */
  lemma FixerMeaning(dsType: string, fs: seq<Field>, fixer: Option<Selector>)
    requires FixerFor(dsType, fs, fixer)
    ensures
      fixer ==
        if dsType !in {"graphite", "grafana-testdata-datasource"} || exists i :: 0 <= i < |fs| && fs[i].labels != map[] then None
        else if TellApart(NamesByDS(fs)) then Some(DisplayNameFromDS)
        else if TellApart(NamesByConfig(fs)) then Some(DisplayName)
        else if TellApart(OwnNames(fs)) then Some(FieldName)
        else None
  {
    SelectorMeaning(DisplayNameFromDS, fs, NamesByDS(fs));
    SelectorMeaning(DisplayName, fs, NamesByConfig(fs));
    SelectorMeaning(FieldName, fs, OwnNames(fs));
    assert Unlabelled(fs) <==> !exists i :: 0 <= i < |fs| && fs[i].labels != map[];
  }

  lemma SelectorMeaning(sel: Selector, fs: seq<Field>, names: seq<string>)
    requires |names| == |fs| && forall i :: 0 <= i < |fs| ==> names[i] == Select(sel, fs[i])
    ensures Identifies(sel, fs) <==> TellApart(names)
  {
  }

  // ---------------------------------------------------------------- the whole conversion

  function TotalLen(ts: seq<Table>, schemaOf: seq<Field> -> Schema): nat
    requires forall k :: 0 <= k < |ts| ==> WellFormed(ts[k], schemaOf(ts[k].fields))
  {
    if ts == [] then 0
    else
      var last := ts[|ts| - 1];
      assert WellFormed(last, schemaOf(last.fields));
      TotalLen(ts[..|ts| - 1], schemaOf) + |schemaOf(last.fields).valueIndices|
  }

  ghost predicate AllConvert(ts: seq<Table>, schemaOf: seq<Field> -> Schema)
    requires AllWellFormed(ts, schemaOf)
  {
    forall k :: 0 <= k < |ts| ==> AllColumnsOk(ts[k], schemaOf(ts[k].fields))
  }

  /** The series of one table, finished by the fixer. */
  function Series(t: Table, s: Schema, fixer: Option<Selector>): (r: seq<Table>)
    requires WellFormed(t, s) && forall i :: 0 <= i < |s.valueIndices| ==> Column(t, s, i).Ok?
    ensures |r| == |s.valueIndices|
  {
    seq(|s.valueIndices|, i requires 0 <= i < |s.valueIndices| => Finished(t, s, fixer, i))
  }

  /** The series of all tables, in order. */
  function AllSeries(ts: seq<Table>, schemaOf: seq<Field> -> Schema, fixer: Option<Selector>): seq<Table>
    requires AllWellFormed(ts, schemaOf) && AllConvert(ts, schemaOf)
  {
    if ts == [] then []
    else
      var last := ts[|ts| - 1];
      assert AllColumnsOk(last, schemaOf(last.fields));
      AllSeries(ts[..|ts| - 1], schemaOf, fixer) + Series(last, schemaOf(last.fields), fixer)
  }

  datatype Conversion = NoSeries | Converted(series: seq<Frame>)

  /** The frames that are kept: the wide ones. */
  ghost function Kept(frames: seq<Frame>, schemaOf: seq<Field> -> Schema): (kept: seq<Frame>)
    reads frames
    ensures forall k :: 0 <= k < |kept| ==> kept[k] in frames && schemaOf(kept[k].fields).Wide?
  {
    if frames == [] then []
    else
      var front := Kept(frames[..|frames| - 1], schemaOf);
      if schemaOf(frames[|frames| - 1].fields).Wide? then front + [frames[|frames| - 1]] else front
  }

  /** Frame by frame: wide frames are kept in their order, others not. */
  lemma KeptOneMore(frames: seq<Frame>, f: Frame, schemaOf: seq<Field> -> Schema)
    ensures Kept([], schemaOf) == []
    ensures Kept(frames + [f], schemaOf) == Kept(frames, schemaOf) + if schemaOf(f.fields).Wide? then [f] else []
  {
    assert (frames + [f])[..|frames|] == frames;
  }

  lemma {:induction false} KeptDistinct(frames: seq<Frame>, schemaOf: seq<Field> -> Schema)
    requires Distinct(frames)
    ensures Distinct(Kept(frames, schemaOf))
  {
    if frames != [] {
      var front, last := frames[..|frames| - 1], frames[|frames| - 1];
      KeptDistinct(front, schemaOf);
      assert last !in front;
    }
  }

  /** Frames that are not time series are dropped for InfluxDB, and refused for every other source. */
  predicate Refused(s: Schema, dsType: string) {
    !s.Wide? && !(s.NotTimeSeries? && dsType == DS_INFLUXDB)
  }

  ghost predicate AnyRefused(frames: seq<Frame>, schemaOf: seq<Field> -> Schema, dsType: string)
    reads frames
  {
    exists f :: f in frames && Refused(schemaOf(f.fields), dsType)
  }

  method FilterFrames(frames: seq<Frame>, schemaOf: seq<Field> -> Schema, dsType: string) returns (r: Result<seq<Frame>, SeriesError>)
    ensures r.Err? <==>
      exists f :: f in frames && !schemaOf(f.fields).Wide? && (dsType == "influxdb" ==> !schemaOf(f.fields).NotTimeSeries?)
    ensures r.Err? <==> AnyRefused(frames, schemaOf, dsType)
    ensures r.Err? ==> r.error == NotWide
    ensures r.Ok? ==> r.value == Kept(frames, schemaOf)
  {
    var filtered: seq<Frame> := [];
    for k := 0 to |frames|
      invariant filtered == Kept(frames[..k], schemaOf)
      invariant forall f :: f in frames[..k] ==> !Refused(schemaOf(f.fields), dsType)
    {
      assert frames[..k + 1][..k] == frames[..k] && frames[k] in frames;
      var schema := schemaOf(frames[k].fields);
      if schema.NotTimeSeries? && dsType == DS_INFLUXDB {
        continue;
      }
      if !schema.Wide? {
        return Err(NotWide);
      }
      filtered := filtered + [frames[k]];
    }
    assert frames[..|frames|] == frames;
    return Ok(filtered);
  }

  /** The frames have the given contents, one by one. */
  ghost predicate Holds(frames: seq<Frame>, ts: seq<Table>)
    reads frames
  {
    |frames| == |ts| && forall i :: 0 <= i < |frames| ==> frames[i].Contents() == ts[i]
  }

  method ConvertFrame(frame: Frame, schemaOf: seq<Field> -> Schema, fixer: Option<Selector>) returns (r: Result<seq<Frame>, SeriesError>)
    requires Sound(schemaOf) && WellFormed(frame.Contents(), schemaOf(frame.fields))
    modifies frame
    ensures r.Ok? <==> old(AllColumnsOk(frame.Contents(), schemaOf(frame.fields)))
    ensures r.Ok? ==> Holds(r.value, old(Series(frame.Contents(), schemaOf(frame.fields), fixer)))
    ensures r.Ok? ==> forall i :: 0 <= i < |r.value| ==> r.value[i] == frame || fresh(r.value[i])
  {
    r := WideToMany(frame, schemaOf, fixer);
  }

  /** None of the frames is one still to be converted. */
  ghost predicate AwayFrom(frames: seq<Frame>, filtered: seq<Frame>, k: nat) {
    forall i, j :: 0 <= i < |frames| && k <= j < |filtered| ==> frames[i] != filtered[j]
  }

  /** The frames from k on still have the contents they came with, and the series so far are other frames, as specified. */
  ghost predicate Converting(filtered: seq<Frame>, ts: seq<Table>, k: nat, vals: seq<Frame>, got: seq<Table>)
    reads filtered, vals
  {
    && |filtered| == |ts| && (forall j :: k <= j < |filtered| ==> filtered[j].Contents() == ts[j])
    && Holds(vals, got) && AwayFrom(vals, filtered, k)
  }

  /** One turn of the loop over the kept frames: it touches its own frame only. */
  method ConvertNext(
    filtered: seq<Frame>, ghost ts: seq<Table>, k: nat, vals: seq<Frame>, ghost got: seq<Table>, schemaOf: seq<Field> -> Schema, fixer: Option<Selector>)
    returns (r: Result<seq<Frame>, SeriesError>)
    requires Sound(schemaOf) && Distinct(filtered) && AllWellFormed(ts, schemaOf)
    requires k < |filtered| && Converting(filtered, ts, k, vals, got)
    modifies filtered[k]
    ensures r.Ok? <==> AllColumnsOk(ts[k], schemaOf(ts[k].fields))
    ensures r.Ok? ==> Converting(filtered, ts, k + 1, r.value, got + Series(ts[k], schemaOf(ts[k].fields), fixer))
  {
    var series := ConvertFrame(filtered[k], schemaOf, fixer);
    if series.Err? {
      return Err(series.error);
    }
    assert filtered[k] !in vals && filtered[k] !in filtered[k + 1..];
    assert Holds(vals, got);
    ConvertedOneMore(filtered, ts, k, vals, got, series.value, Series(ts[k], schemaOf(ts[k].fields), fixer));
    return Ok(vals + series.value);
  }

  lemma ConvertedOneMore(filtered: seq<Frame>, ts: seq<Table>, k: nat, vals: seq<Frame>, got: seq<Table>, more: seq<Frame>, moreGot: seq<Table>)
    requires k < |filtered| == |ts| && forall j :: k < j < |filtered| ==> filtered[j].Contents() == ts[j]
    requires Holds(vals, got) && Holds(more, moreGot) && AwayFrom(vals, filtered, k) && AwayFrom(more, filtered, k + 1)
    ensures Converting(filtered, ts, k + 1, vals + more, got + moreGot)
  {
  }

  /** Converts the kept frames, whose contents are ts, one after the other. */
  method ConvertKept(filtered: seq<Frame>, ghost ts: seq<Table>, schemaOf: seq<Field> -> Schema, fixer: Option<Selector>)
    returns (r: Result<seq<Frame>, SeriesError>)
    requires Sound(schemaOf) && Distinct(filtered) && Holds(filtered, ts) && AllWellFormed(ts, schemaOf)
    modifies filtered
    ensures r.Ok? <==> AllConvert(ts, schemaOf)
    ensures r.Ok? ==> Holds(r.value, AllSeries(ts, schemaOf, fixer))
  {
    ghost var got: seq<Table> := [];
    var vals: seq<Frame> := [];
    for k := 0 to |filtered|
      invariant Converting(filtered, ts, k, vals, got)
      invariant AllConvert(ts[..k], schemaOf) && got == AllSeries(ts[..k], schemaOf, fixer)
    {
      var next := ConvertNext(filtered, ts, k, vals, got, schemaOf, fixer);
      if next.Err? {
        return Err(next.error);
      }
      AppendTable(ts, k, schemaOf, fixer);
      vals := next.value;
      got := got + Series(ts[k], schemaOf(ts[k].fields), fixer);
    }
    assert ts[..|filtered|] == ts;
    return Ok(vals);
  }

  lemma AppendTable(ts: seq<Table>, k: nat, schemaOf: seq<Field> -> Schema, fixer: Option<Selector>)
    requires AllWellFormed(ts, schemaOf) && k < |ts| && AllConvert(ts[..k], schemaOf)
    requires AllColumnsOk(ts[k], schemaOf(ts[k].fields))
    ensures AllConvert(ts[..k + 1], schemaOf)
    ensures AllSeries(ts[..k + 1], schemaOf, fixer) ==
            AllSeries(ts[..k], schemaOf, fixer) + Series(ts[k], schemaOf(ts[k].fields), fixer)
  {
    assert ts[..k + 1][..k] == ts[..k];
  }

  /** What checkIfSeriesNeedToBeFixed promises about the value fields it saw. */
  ghost predicate FixerFor(dsType: string, fs: seq<Field>, fixer: Option<Selector>) {
    && (fixer.Some? ==> Eligible(dsType) && Unlabelled(fs) && FirstIdentifying(fixer.value, fs))
    && (fixer.None? <==> !Eligible(dsType) || !Unlabelled(fs) || forall sel :: !Identifies(sel, fs))
  }

  /** The frames hold the series of all tables, relabelled by the fixer chosen for these tables. */
  ghost predicate HoldAllSeries(series: seq<Frame>, ts: seq<Table>, schemaOf: seq<Field> -> Schema, dsType: string)
    requires AllWellFormed(ts, schemaOf) && AllConvert(ts, schemaOf)
    reads series
  {
    exists fixer :: FixerFor(dsType, AllValueFields(ts, schemaOf), fixer) && Holds(series, AllSeries(ts, schemaOf, fixer))
  }

  /** Chooses a fixer from the frames as they came, then converts frame by frame. */
  method ConvertFiltered(filtered: seq<Frame>, ghost ts: seq<Table>, schemaOf: seq<Field> -> Schema, dsType: string)
    returns (r: Result<seq<Frame>, SeriesError>)
    requires Sound(schemaOf) && Distinct(filtered) && ts == ContentsOf(filtered) && AllWellFormed(ts, schemaOf)
    modifies filtered
    ensures r.Ok? <==> AllConvert(ts, schemaOf)
    ensures r.Ok? ==> HoldAllSeries(r.value, ts, schemaOf, dsType)
  {
    var fixer := CheckIfSeriesNeedToBeFixed(filtered, schemaOf, dsType);
    r := ConvertKept(filtered, ts, schemaOf, fixer);
  }

  /**
   * The last part of convertDataFramesToResults: keep the wide frames and convert them.
   * Nothing else can fail: the result is an error exactly when a frame is refused or a kept one
   * has a column that does not convert.
   */
  method ConvertWide(frames: seq<Frame>, schemaOf: seq<Field> -> Schema, dsType: string) returns (r: Result<Conversion, SeriesError>)
    requires Sound(schemaOf) && Distinct(frames) && forall k :: 0 <= k < |frames| ==> Rectangular(frames[k].fields)
    modifies frames
    ensures old(AnyRefused(frames, schemaOf, dsType)) ==> r == Err(NotWide)
    ensures r.Ok? ==> (r.value == NoSeries <==> old(Kept(frames, schemaOf)) == [])
    ensures
      var ts := old(ContentsOf(Kept(frames, schemaOf)));
      && AllWellFormed(ts, schemaOf)
      && (r.Ok? ==> AllConvert(ts, schemaOf))
      && (r.Err? ==> old(AnyRefused(frames, schemaOf, dsType)) || !AllConvert(ts, schemaOf))
      && (r.Ok? && r.value.Converted? ==> HoldAllSeries(r.value.series, ts, schemaOf, dsType))
  {
    var filtered := FilterFrames(frames, schemaOf, dsType);
    KeptDistinct(frames, schemaOf);
    if filtered.Err? {
      return Err(filtered.error);
    }
    if |filtered.value| == 0 {
      return Ok(NoSeries);
    }
    var vals := ConvertFiltered(filtered.value, ContentsOf(filtered.value), schemaOf, dsType);
    if vals.Err? {
      return Err(vals.error);
    }
    return Ok(Converted(vals.value));
  }

  // ---------------------------------------------------------------- nothing is lost

  /** The cells of the time column and of each value column of a table. */
  datatype Columns = Columns(time: seq<Cell>, values: seq<seq<Cell>>)

  function ColumnsOf(t: Table, s: Schema): Columns
    requires WellFormed(t, s)
  {
    Columns(t.fields[s.timeIndex].cells, seq(|s.valueIndices|, i requires 0 <= i < |s.valueIndices| => ValueField(t, s, i).cells))
  }

  /** Reads the columns back from the series of one table. */
  function Rebuild(series: seq<Table>): Columns
    requires series != [] && forall i :: 0 <= i < |series| ==> |series[i].fields| == 2
  {
    Columns(series[0].fields[0].cells, seq(|series|, i requires 0 <= i < |series| => series[i].fields[1].cells))
  }

  /**
   * Lossless split: the columns of a frame can be read back, row for row, from its series,
   * whether or not they were renamed; every series repeats the whole time column.
   */
  lemma SplitIsLossless(t: Table, s: Schema, fixer: Option<Selector>)
    requires WellFormed(t, s) && AllColumnsOk(t, s)
    ensures forall i :: 0 <= i < |s.valueIndices| ==> |Series(t, s, fixer)[i].fields| == 2
    ensures Rebuild(Series(t, s, fixer)) == ColumnsOf(t, s)
    ensures forall i :: 0 <= i < |s.valueIndices| ==> Series(t, s, fixer)[i].fields[0].cells == t.fields[s.timeIndex].cells
  {
  }

  /** The conversion yields as many series as the kept frames have value columns. */
  lemma {:induction false} SeriesCount(ts: seq<Table>, schemaOf: seq<Field> -> Schema, fixer: Option<Selector>)
    requires AllWellFormed(ts, schemaOf) && AllConvert(ts, schemaOf)
    ensures |AllSeries(ts, schemaOf, fixer)| == TotalLen(ts, schemaOf) == |AllValueFields(ts, schemaOf)|
  {
    if ts != [] {
      SeriesCount(ts[..|ts| - 1], schemaOf, fixer);
    }
  }

  /** Where the series of column i of table k stands among all series. */
  function Offset(ts: seq<Table>, schemaOf: seq<Field> -> Schema, k: nat): nat
    requires AllWellFormed(ts, schemaOf) && k <= |ts|
  {
    if k == 0 then 0
    else
      assert WellFormed(ts[k - 1], schemaOf(ts[k - 1].fields));
      Offset(ts, schemaOf, k - 1) + |schemaOf(ts[k - 1].fields).valueIndices|
  }

  lemma {:induction false} OffsetOfFront(ts: seq<Table>, schemaOf: seq<Field> -> Schema, k: nat)
    requires AllWellFormed(ts, schemaOf) && k < |ts|
    ensures Offset(ts[..|ts| - 1], schemaOf, k) == Offset(ts, schemaOf, k)
    decreases k
  {
    if k > 0 {
      OffsetOfFront(ts, schemaOf, k - 1);
    }
  }

  lemma FrontOffset(ts: seq<Table>, schemaOf: seq<Field> -> Schema)
    requires AllWellFormed(ts, schemaOf) && ts != []
    ensures Offset(ts[..|ts| - 1], schemaOf, |ts| - 1) == Offset(ts, schemaOf, |ts| - 1)
  {
    OffsetOfFront(ts, schemaOf, |ts| - 1);
  }

  lemma {:induction false} OffsetIsLength(ts: seq<Table>, schemaOf: seq<Field> -> Schema, fixer: Option<Selector>)
    requires AllWellFormed(ts, schemaOf) && AllConvert(ts, schemaOf)
    ensures |AllSeries(ts, schemaOf, fixer)| == Offset(ts, schemaOf, |ts|)
  {
    if ts != [] {
      OffsetIsLength(ts[..|ts| - 1], schemaOf, fixer);
      FrontOffset(ts, schemaOf);
    }
  }

  /** Entry n of the series is the finished series of column i of this table. */
  ghost predicate StandsAt(series: seq<Table>, n: nat, t: Table, s: Schema, fixer: Option<Selector>, i: nat) {
    && WellFormed(t, s) && i < |s.valueIndices| && Column(t, s, i).Ok?
    && n < |series| && series[n] == Finished(t, s, fixer, i)
  }

  /** The series stand table by table, and within a table column by column. */
  lemma {:induction false} SeriesAt(ts: seq<Table>, schemaOf: seq<Field> -> Schema, fixer: Option<Selector>, k: nat, i: nat)
    requires AllWellFormed(ts, schemaOf) && AllConvert(ts, schemaOf)
    requires k < |ts| && i < |ValueFields(ts[k], schemaOf(ts[k].fields))|
    ensures StandsAt(AllSeries(ts, schemaOf, fixer), Offset(ts, schemaOf, k) + i, ts[k], schemaOf(ts[k].fields), fixer, i)
    decreases |ts|
  {
    var front, last := ts[..|ts| - 1], ts[|ts| - 1];
    assert AllColumnsOk(last, schemaOf(last.fields));
    var fore, own := AllSeries(front, schemaOf, fixer), Series(last, schemaOf(last.fields), fixer);
    assert AllSeries(ts, schemaOf, fixer) == fore + own;
    OffsetOfFront(ts, schemaOf, k);
    if k < |front| {
      SeriesAt(front, schemaOf, fixer, k, i);
    } else {
      OffsetIsLength(front, schemaOf, fixer);
      assert (fore + own)[|fore| + i] == own[i];
    }
  }

  // ---------------------------------------------------------------- when names identify

  /**
   * The name a series gets is read from a frame with a single value column only after that frame
   * was rewritten. It is still the name the choice of the fixer was based on when the value
   * column comes second, was not converted from another number type (if the name is configured),
   * and is not renamed after the frame (if the name is the column's); when the value column comes
   * first, the time column is read instead and must happen to bear the same name.
   */
  predicate InStep(t: Table, s: Schema, sel: Selector)
    requires WellFormed(t, s)
  {
    if |s.valueIndices| != 1 || |t.fields| != 2 then true
    else
      var f := ValueField(t, s, 0);
      if s.valueIndices[0] == 0 then Select(sel, t.fields[s.timeIndex]) == Select(sel, f)
      else if sel == FieldName then t.name == "" || t.name == f.name
      else f.kind != OtherNumeric || Select(sel, f) == ""
  }

  lemma NameReadInStep(t: Table, s: Schema, sel: Selector)
    requires WellFormed(t, s) && AllColumnsOk(t, s)
    ensures InStep(t, s, sel) <==>
      forall i :: 0 <= i < |s.valueIndices| ==> Column(t, s, i).Ok? && AssignedName(t, s, sel, i) == Select(sel, ValueField(t, s, i))
  {
  }

  ghost predicate AllInStep(ts: seq<Table>, schemaOf: seq<Field> -> Schema, sel: Selector)
    requires AllWellFormed(ts, schemaOf)
  {
    forall k :: 0 <= k < |ts| ==> InStep(ts[k], schemaOf(ts[k].fields), sel)
  }

  /** Series k bears, as its only label, the name that the selector gives to value field k. */
  ghost predicate NamedAfter(series: seq<Table>, fs: seq<Field>, sel: Selector) {
    |series| == |fs| && forall k :: 0 <= k < |fs| ==>
      |series[k].fields| == 2 && series[k].fields[1].labels == map[NAME_LABEL := Select(sel, fs[k])]
  }

  lemma NamedAfterJoin(a: seq<Table>, fa: seq<Field>, b: seq<Table>, fb: seq<Field>, sel: Selector)
    requires |a| == |fa| && |b| == |fb|
    ensures NamedAfter(a + b, fa + fb, sel) <==> NamedAfter(a, fa, sel) && NamedAfter(b, fb, sel)
  {
    if NamedAfter(a + b, fa + fb, sel) {
      forall k | 0 <= k < |fa| ensures |a[k].fields| == 2 && a[k].fields[1].labels == map[NAME_LABEL := Select(sel, fa[k])] {
        assert (a + b)[k] == a[k] && (fa + fb)[k] == fa[k];
      }
      forall k | 0 <= k < |fb| ensures |b[k].fields| == 2 && b[k].fields[1].labels == map[NAME_LABEL := Select(sel, fb[k])] {
        assert (a + b)[|a| + k] == b[k] && (fa + fb)[|fa| + k] == fb[k];
      }
    }
  }

  lemma TableNamed(t: Table, s: Schema, sel: Selector)
    requires WellFormed(t, s) && AllColumnsOk(t, s)
    ensures NamedAfter(Series(t, s, Some(sel)), ValueFields(t, s), sel) <==> InStep(t, s, sel)
  {
    NameReadInStep(t, s, sel);
    var series, fs := Series(t, s, Some(sel)), ValueFields(t, s);
    forall i | 0 <= i < |fs|
      ensures |series[i].fields| == 2
      ensures series[i].fields[1].labels == map[NAME_LABEL := Select(sel, fs[i])] <==> AssignedName(t, s, sel, i) == Select(sel, ValueField(t, s, i))
    {
      assert Column(t, s, i).Ok?;
      var got := series[i].fields[1].labels;
      assert got == map[NAME_LABEL := AssignedName(t, s, sel, i)];
      assert got[NAME_LABEL] == AssignedName(t, s, sel, i);
    }
  }

  /**
   * Every series bears the name the fixer was chosen by if and only if every frame is in step.
   */
  lemma {:induction false} NamesFollowFieldsExactlyInStep(ts: seq<Table>, schemaOf: seq<Field> -> Schema, sel: Selector)
    requires AllWellFormed(ts, schemaOf) && AllConvert(ts, schemaOf)
    ensures NamedAfter(AllSeries(ts, schemaOf, Some(sel)), AllValueFields(ts, schemaOf), sel) <==> AllInStep(ts, schemaOf, sel)
  {
    if ts != [] {
      var front, last := ts[..|ts| - 1], ts[|ts| - 1];
      var s := schemaOf(last.fields);
      NamesFollowFieldsExactlyInStep(front, schemaOf, sel);
      SeriesCount(front, schemaOf, Some(sel));
      assert AllColumnsOk(last, s);
      TableNamed(last, s, sel);
      NamedAfterJoin(AllSeries(front, schemaOf, Some(sel)), AllValueFields(front, schemaOf), Series(last, s, Some(sel)), ValueFields(last, s), sel);
      assert AllInStep(ts, schemaOf, sel) <==> AllInStep(front, schemaOf, sel) && InStep(last, s, sel);
    }
  }

  /** The name labels tell all series apart. */
  ghost predicate Identifiable(series: seq<Table>) {
    && (forall k :: 0 <= k < |series| ==> |series[k].fields| == 2 && NAME_LABEL in series[k].fields[1].labels)
    && (forall k :: 0 <= k < |series| ==> series[k].fields[1].labels[NAME_LABEL] != "")
    && (forall k, l :: 0 <= k < l < |series| ==> series[k].fields[1].labels[NAME_LABEL] != series[l].fields[1].labels[NAME_LABEL])
  }

  /**
   * The name the series of value column i gets, read off the frame as it came. A single value
   * column that comes second is called after its frame, if that has a name, and loses its
   * configuration when it is converted; if it comes first, the time column is named instead.
   */
  function NameGiven(t: Table, s: Schema, sel: Selector, i: nat): string
    requires WellFormed(t, s) && i < |s.valueIndices|
  {
    var f := ValueField(t, s, i);
    if |s.valueIndices| != 1 then Select(sel, f)
    else if s.valueIndices[0] == 0 then Select(sel, t.fields[s.timeIndex])
    else if sel == FieldName then if t.name != "" then t.name else f.name
    else if f.kind == OtherNumeric then ""
    else Select(sel, f)
  }

  lemma AssignedNameIsGiven(t: Table, s: Schema, sel: Selector, i: nat)
    requires WellFormed(t, s) && i < |s.valueIndices| && Column(t, s, i).Ok?
    ensures AssignedName(t, s, sel, i) == NameGiven(t, s, sel, i)
  {
  }

  function NamesGiven(t: Table, s: Schema, sel: Selector): (names: seq<string>)
    requires WellFormed(t, s)
    ensures |names| == |s.valueIndices|
  {
    seq(|s.valueIndices|, i requires 0 <= i < |s.valueIndices| => NameGiven(t, s, sel, i))
  }

  /** The names given to the series of all frames, in order. */
  function AllNamesGiven(ts: seq<Table>, schemaOf: seq<Field> -> Schema, sel: Selector): seq<string>
    requires AllWellFormed(ts, schemaOf)
  {
    if ts == [] then []
    else
      var last := ts[|ts| - 1];
      AllNamesGiven(ts[..|ts| - 1], schemaOf, sel) + NamesGiven(last, schemaOf(last.fields), sel)
  }

  /** Series k bears name k as its only label. */
  ghost predicate Bears(series: seq<Table>, names: seq<string>) {
    |series| == |names| && forall k :: 0 <= k < |series| ==>
      |series[k].fields| == 2 && series[k].fields[1].labels == map[NAME_LABEL := names[k]]
  }

  lemma {:induction false} SeriesBearNamesGiven(ts: seq<Table>, schemaOf: seq<Field> -> Schema, sel: Selector)
    requires AllWellFormed(ts, schemaOf) && AllConvert(ts, schemaOf)
    ensures Bears(AllSeries(ts, schemaOf, Some(sel)), AllNamesGiven(ts, schemaOf, sel))
    ensures forall k :: 0 <= k < |AllSeries(ts, schemaOf, Some(sel))| ==>
      k < |AllNamesGiven(ts, schemaOf, sel)| && |AllSeries(ts, schemaOf, Some(sel))[k].fields| == 2 &&
      AllSeries(ts, schemaOf, Some(sel))[k].fields[1].labels == map["__name__" := AllNamesGiven(ts, schemaOf, sel)[k]]
  {
    if ts != [] {
      var last := ts[|ts| - 1];
      var s := schemaOf(last.fields);
      SeriesBearNamesGiven(ts[..|ts| - 1], schemaOf, sel);
      assert AllColumnsOk(last, s);
      TableBearsNamesGiven(last, s, sel);
    }
  }

  lemma TableBearsNamesGiven(t: Table, s: Schema, sel: Selector)
    requires WellFormed(t, s) && AllColumnsOk(t, s)
    ensures Bears(Series(t, s, Some(sel)), NamesGiven(t, s, sel))
  {
    forall i | 0 <= i < |s.valueIndices|
      ensures |Series(t, s, Some(sel))[i].fields| == 2
      ensures Series(t, s, Some(sel))[i].fields[1].labels == map[NAME_LABEL := NamesGiven(t, s, sel)[i]]
    {
      assert Column(t, s, i).Ok?;
      AssignedNameIsGiven(t, s, sel, i);
    }
  }

  /**
   * Whether a fixer makes the series identifiable can be read off the frames as they came: the
   * name labels are all non-empty and pairwise different if and only if the names given are.
   */
  lemma IdentifiableExactlyWhenNamesTellApart(ts: seq<Table>, schemaOf: seq<Field> -> Schema, sel: Selector)
    requires AllWellFormed(ts, schemaOf) && AllConvert(ts, schemaOf)
    ensures Identifiable(AllSeries(ts, schemaOf, Some(sel))) <==> TellApart(AllNamesGiven(ts, schemaOf, sel))
  {
    SeriesBearNamesGiven(ts, schemaOf, sel);
    var series, names := AllSeries(ts, schemaOf, Some(sel)), AllNamesGiven(ts, schemaOf, sel);
    forall k | 0 <= k < |series| ensures NAME_LABEL in series[k].fields[1].labels && series[k].fields[1].labels[NAME_LABEL] == names[k] {
      assert series[k].fields[1].labels == map[NAME_LABEL := names[k]];
    }
  }

  /**
   * A fixer that was chosen makes all series identifiable if and only if the names given tell
   * them apart; that is so whenever all frames are in step, since it was chosen by their columns.
   */
  lemma FixedSeriesAreIdentifiable(ts: seq<Table>, schemaOf: seq<Field> -> Schema, dsType: string, sel: Selector)
    requires AllWellFormed(ts, schemaOf) && AllConvert(ts, schemaOf)
    requires FixerFor(dsType, AllValueFields(ts, schemaOf), Some(sel))
    ensures Identifiable(AllSeries(ts, schemaOf, Some(sel))) <==> TellApart(AllNamesGiven(ts, schemaOf, sel))
    ensures AllInStep(ts, schemaOf, sel) ==> Identifiable(AllSeries(ts, schemaOf, Some(sel)))
  {
    IdentifiableExactlyWhenNamesTellApart(ts, schemaOf, sel);
    NamesFollowFieldsExactlyInStep(ts, schemaOf, sel);
  }

  /** A frame whose columns are a time column and then one value column. */
  ghost predicate OneColumnSecond(t: Table, s: Schema) {
    WellFormed(t, s) && AllColumnsOk(t, s) && |t.fields| == 2 && s == Wide(0, [1])
  }

  /**
   * Series called after their frames: two named frames that each have a single value column, and
   * a fixer that goes by column names. The series are identifiable if and only if the frames have
   * different names, although they then bear neither column's name.
   */
  lemma FrameNamesIdentify(a: Table, b: Table, schemaOf: seq<Field> -> Schema)
    requires OneColumnSecond(a, schemaOf(a.fields)) && OneColumnSecond(b, schemaOf(b.fields))
    requires a.name != "" && b.name != "" && a.name != a.fields[1].name
    ensures AllWellFormed([a, b], schemaOf) && AllConvert([a, b], schemaOf)
    ensures AllNamesGiven([a, b], schemaOf, FieldName) == [a.name, b.name]
    ensures Identifiable(AllSeries([a, b], schemaOf, Some(FieldName))) <==> a.name != b.name
    ensures !AllInStep([a, b], schemaOf, FieldName)
  {
    var s := Wide(0, [1]);
    PairSeries(a, b, schemaOf, Some(FieldName));
    assert [a, b][..1] == [a] && [a][..0] == [];
    assert AllNamesGiven([a], schemaOf, FieldName) == AllNamesGiven([], schemaOf, FieldName) + NamesGiven(a, s, FieldName);
    assert AllNamesGiven([a, b], schemaOf, FieldName) == AllNamesGiven([a], schemaOf, FieldName) + NamesGiven(b, s, FieldName);
    var names := AllNamesGiven([a, b], schemaOf, FieldName);
    assert names == [a.name, b.name];
    IdentifiableExactlyWhenNamesTellApart([a, b], schemaOf, FieldName);
    assert names[0] == a.name && names[1] == b.name;
    assert !InStep([a, b][0], schemaOf(a.fields), FieldName);
  }

  /**
   * Out of step: whenever two frames of one name each have a single value column and the fixer
   * goes by column names, both series end up with the name of the frame.
   */
  lemma SameNamedFramesCollide(a: Table, b: Table, schemaOf: seq<Field> -> Schema)
    requires OneColumnSecond(a, schemaOf(a.fields)) && OneColumnSecond(b, schemaOf(b.fields))
    requires a.name == b.name != ""
    ensures AllWellFormed([a, b], schemaOf) && AllConvert([a, b], schemaOf)
    ensures !Identifiable(AllSeries([a, b], schemaOf, Some(FieldName)))
  {
    var s := Wide(0, [1]);
    assert Column(a, s, 0).Ok? && Column(b, s, 0).Ok?;
    var fa, fb := Finished(a, s, Some(FieldName), 0), Finished(b, s, Some(FieldName), 0);
    PairSeries(a, b, schemaOf, Some(FieldName));
    assert fa.fields[1].labels[NAME_LABEL] == a.name && fb.fields[1].labels[NAME_LABEL] == a.name;
    assert AllSeries([a, b], schemaOf, Some(FieldName)) == [fa, fb];
    assert [fa, fb][0] == fa && [fa, fb][1] == fb;
  }

  lemma PairSeries(a: Table, b: Table, schemaOf: seq<Field> -> Schema, fixer: Option<Selector>)
    requires OneColumnSecond(a, schemaOf(a.fields)) && OneColumnSecond(b, schemaOf(b.fields))
    ensures AllWellFormed([a, b], schemaOf) && AllConvert([a, b], schemaOf)
    ensures Column(a, schemaOf(a.fields), 0).Ok? && Column(b, schemaOf(b.fields), 0).Ok?
    ensures AllSeries([a, b], schemaOf, fixer) ==
            [Finished(a, schemaOf(a.fields), fixer, 0), Finished(b, schemaOf(b.fields), fixer, 0)]
  {
    var s := Wide(0, [1]);
    assert [a, b][..1] == [a] && [a][..0] == [];
    assert AllSeries([a], schemaOf, fixer) == AllSeries([], schemaOf, fixer) + Series(a, s, fixer);
    assert AllSeries([a, b], schemaOf, fixer) == AllSeries([a], schemaOf, fixer) + Series(b, s, fixer);
    assert Column(a, s, 0).Ok? && Column(b, s, 0).Ok?;
  }

  /** Such frames do get that fixer, whatever they are called: two unlabelled columns of different names, one without configuration. */
  lemma CollidingFramesGetAFixer(a: Table, b: Table, schemaOf: seq<Field> -> Schema)
    requires OneColumnSecond(a, schemaOf(a.fields)) && OneColumnSecond(b, schemaOf(b.fields))
    requires a.fields[1].labels == map[] && b.fields[1].labels == map[] && a.fields[1].config == None
    requires a.fields[1].name != b.fields[1].name && a.fields[1].name != "" && b.fields[1].name != ""
    ensures AllWellFormed([a, b], schemaOf)
    ensures FixerFor(DS_GRAPHITE, AllValueFields([a, b], schemaOf), Some(FieldName))
  {
    var s := Wide(0, [1]);
    assert [a, b][..1] == [a] && [a][..0] == [];
    assert ValueFields(a, s) == [a.fields[1]] && ValueFields(b, s) == [b.fields[1]];
    assert AllValueFields([a], schemaOf) == AllValueFields([], schemaOf) + ValueFields(a, s);
    assert AllValueFields([a, b], schemaOf) == AllValueFields([a], schemaOf) + ValueFields(b, s);
    var fs := AllValueFields([a, b], schemaOf);
    assert fs == [a.fields[1], b.fields[1]];
    assert Select(DisplayNameFromDS, fs[0]) == "" && Select(DisplayName, fs[0]) == "";
    assert Identifies(FieldName, fs);
  }
}
