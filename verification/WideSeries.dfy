/**
 * Splitting wide data frames into series, and making unlabelled series identifiable
 * (pkg/expr/nodes.go, pkg/expr/mathexp/type_series.go). Frames are objects: converting a frame
 * with a single value column rewrites that frame itself.
 */
module WideSeries {
  import opened Basics

  datatype Cell = Time(t: int) | Num(x: real) | Null

  /** The column types a wide frame is made of. OtherNumeric stands for every number type but float64. */
  datatype Kind = TimeKind | NullableTimeKind | Float64 | NullableFloat64 | OtherNumeric

  predicate IsTime(k: Kind) { k == TimeKind || k == NullableTimeKind }

  datatype Config = Config(displayNameFromDS: string, displayName: string)

  type Labels = map<string, string>

  datatype Field = Field(name: string, kind: Kind, labels: Labels, config: Option<Config>, cells: seq<Cell>)

  /** The contents of a frame. */
  datatype Table = Table(name: string, fields: seq<Field>)

  class Frame {
    const name: string
    var fields: seq<Field>

    constructor (name: string, fields: seq<Field>)
      ensures this.name == name && this.fields == fields
    {
      this.name := name;
      this.fields := fields;
    }

    function Contents(): Table
      reads this
    {
      Table(name, fields)
    }
  }

  datatype Schema = Wide(timeIndex: nat, valueIndices: seq<nat>) | NotTimeSeries | Long

  /** The schema analysis of the data frame library, as far as this code relies on it. */
  ghost predicate Sound(schemaOf: seq<Field> -> Schema) {
    forall fs: seq<Field> :: schemaOf(fs).Wide? ==>
      var s := schemaOf(fs);
      && s.timeIndex < |fs| && IsTime(fs[s.timeIndex].kind)
      && |s.valueIndices| > 0 && Distinct(s.valueIndices)
      && (forall i :: 0 <= i < |s.valueIndices| ==> s.valueIndices[i] < |fs| && !IsTime(fs[s.valueIndices[i]].kind))
  }

  /** All columns have the same length. */
  predicate Rectangular(fs: seq<Field>) {
    forall i :: 0 <= i < |fs| ==> |fs[i].cells| == |fs[0].cells|
  }

  datatype SeriesError = NotWide | NotTwoFields(got: nat) | NoTimeColumn | NoValueColumn | NullTimestamp

  // ---------------------------------------------------------------- a table as one series

  predicate NoNulls(cells: seq<Cell>) {
    forall i :: 0 <= i < |cells| ==> cells[i] != Null
  }

  /** The time column of a series. */
  function SeriesTime(f: Field): Field {
    if f.kind == NullableTimeKind then f.(kind := TimeKind, labels := map[]) else f
  }

  /** The value column of a series; converting from another number type drops the configuration. */
  function SeriesValue(frameName: string, f: Field): Field {
    var g :=
      if f.kind == OtherNumeric then f.(kind := NullableFloat64, config := None)
      else f.(kind := NullableFloat64);
    if frameName != "" then g.(name := frameName) else g
  }

  /** A frame with one time and one value column as a series. */
  function AsSeries(t: Table, time: Field, value: Field): Result<Table, SeriesError> {
    if value.kind == OtherNumeric && value.cells == [] then Err(NoValueColumn)
    else if time.kind == NullableTimeKind && !NoNulls(time.cells) then Err(NullTimestamp)
    else Ok(Table(t.name, [SeriesTime(time), SeriesValue(t.name, value)]))
  }

  /** The contents of any frame as a series; the two columns may stand in either order. */
  function SeriesOf(t: Table): Result<Table, SeriesError> {
    if |t.fields| != 2 then Err(NotTwoFields(|t.fields|))
    else if !IsTime(t.fields[0].kind) && !IsTime(t.fields[1].kind) then Err(NoTimeColumn)
    else if IsTime(t.fields[0].kind) && IsTime(t.fields[1].kind) then Err(NoValueColumn)
    else if IsTime(t.fields[0].kind) then AsSeries(t, t.fields[0], t.fields[1])
    else AsSeries(t, t.fields[1], t.fields[0])
  }

  /** A frame is a series exactly when one of its two columns is a time column without null and the other one can hold values. */
  lemma SeriesOfMeaning(t: Table)
    ensures SeriesOf(t).Ok? <==>
      |t.fields| == 2 && (MakeSeries(t.fields[0], t.fields[1]) || MakeSeries(t.fields[1], t.fields[0]))
    ensures SeriesOf(t).Ok? && MakeSeries(t.fields[0], t.fields[1]) ==> IsSeriesOf(SeriesOf(t).value, t.name, t.fields[0], t.fields[1])
    ensures SeriesOf(t).Ok? && MakeSeries(t.fields[1], t.fields[0]) ==> IsSeriesOf(SeriesOf(t).value, t.name, t.fields[1], t.fields[0])
  {
    forall f ensures NoNulls(f) <==> Null !in f {}
  }

  /** A time and a value column that make a series. */
  ghost predicate MakeSeries(time: Field, value: Field) {
    && (time.kind == TimeKind || (time.kind == NullableTimeKind && Null !in time.cells))
    && value.kind in {Float64, NullableFloat64, OtherNumeric} && !(value.kind == OtherNumeric && value.cells == [])
  }

  /** The series is made of these two columns, the time column first. */
  ghost predicate IsSeriesOf(r: Table, name: string, time: Field, value: Field) {
    && r.name == name && |r.fields| == 2
    && r.fields[0].cells == time.cells && r.fields[0].name == time.name && r.fields[0].kind == TimeKind && r.fields[0].config == time.config
    && IsValueColumn(r.fields[1], value, name)
  }

  /** The value column of a series keeps the labels and cells of its column; what becomes of its name and configuration. */
  ghost predicate IsValueColumn(value: Field, f: Field, frameName: string) {
    && value.labels == f.labels && value.cells == f.cells && value.kind == NullableFloat64
    && value.name == (if frameName != "" then frameName else f.name)
    && value.config == (if f.kind == OtherNumeric then None else f.config)
  }

  /** A column of another number type is replaced as soon as it is met, also in a frame that is then refused. */
  function AsNullable(f: Field): Field {
    if f.kind == OtherNumeric && f.cells != [] then f.(kind := NullableFloat64, config := None) else f
  }

  /** A time column, or one that can hold the values. */
  predicate Fits(f: Field, time: bool) {
    if time then IsTime(f.kind) else !IsTime(f.kind) && !(f.kind == OtherNumeric && f.cells == [])
  }

  /** The last of the first n columns that fits; -1 if there is none. */
  function LastIndex(fs: seq<Field>, n: nat, time: bool): (i: int)
    requires n <= |fs|
    ensures -1 <= i < n
  {
    if n == 0 then -1 else if Fits(fs[n - 1], time) then n - 1 else LastIndex(fs, n - 1, time)
  }

  lemma LastOfTwo(fs: seq<Field>, time: bool)
    requires |fs| == 2
    ensures LastIndex(fs, 2, time) == if Fits(fs[1], time) then 1 else if Fits(fs[0], time) then 0 else -1
  {
    assert LastIndex(fs, 1, time) == if Fits(fs[0], time) then 0 else LastIndex(fs, 0, time);
  }

  /** What the loop over the two columns finds. */
  datatype Found = Found(timeIdx: int, valueIdx: int, timeNullable: bool, valueNullable: bool)

  ghost predicate FoundIn(found: Found, fs: seq<Field>)
    requires |fs| == 2
  {
    && found.timeIdx == LastIndex(fs, 2, true) && found.valueIdx == LastIndex(fs, 2, false)
    && (found.timeIdx >= 0 && found.valueIdx >= 0 ==>
          && (found.timeNullable <==> fs[found.timeIdx].kind == NullableTimeKind)
          && (found.valueNullable <==> fs[found.valueIdx].kind != Float64))
  }

  /** The loop of SeriesFromFrame: finds the two columns and replaces those of another number type. */
  method FindColumns(frame: Frame) returns (found: Found)
    requires |frame.fields| == 2
    modifies frame
    ensures FoundIn(found, old(frame.fields))
    ensures frame.fields == [AsNullable(old(frame.fields)[0]), AsNullable(old(frame.fields)[1])]
  {
    var valueIdx, timeIdx := -1, -1;
    var timeNullable, valueNullable := false, false;
    ghost var fs := frame.fields;
    for i := 0 to 2
      invariant |frame.fields| == 2
      invariant forall k :: 0 <= k < 2 ==> frame.fields[k] == if k < i then AsNullable(fs[k]) else fs[k]
      invariant timeIdx == LastIndex(fs, i, true) && valueIdx == LastIndex(fs, i, false)
      invariant timeIdx >= 0 && valueIdx >= 0 ==>
        (timeNullable <==> fs[timeIdx].kind == NullableTimeKind) && (valueNullable <==> fs[valueIdx].kind != Float64)
      invariant i < 2 && timeIdx >= 0 ==> (timeNullable <==> fs[timeIdx].kind == NullableTimeKind) && !valueNullable
      invariant i < 2 && valueIdx >= 0 ==> (valueNullable <==> fs[valueIdx].kind != Float64) && !timeNullable
      invariant timeIdx < 0 && valueIdx < 0 ==> !timeNullable && !valueNullable
    {
      var field := frame.fields[i];
      match field.kind
      case TimeKind => timeIdx := i;
      case NullableTimeKind => timeNullable := true; timeIdx := i;
      case Float64 => valueIdx := i;
      case NullableFloat64 => valueNullable := true; valueIdx := i;
      case OtherNumeric =>
        if |field.cells| > 0 {
          frame.fields := frame.fields[i := field.(kind := NullableFloat64, config := None)];
          valueNullable := true;
          valueIdx := i;
        }
    }
    return Found(timeIdx, valueIdx, timeNullable, valueNullable);
  }

  /** The loop that looks for a null timestamp. */
  method HasNull(cells: seq<Cell>) returns (found: bool)
    ensures found <==> !NoNulls(cells)
  {
    for r := 0 to |cells|
      invariant NoNulls(cells[..r])
    {
      if cells[r] == Null {
        return true;
      }
    }
    assert cells[..|cells|] == cells;
    return false;
  }

  /**
   * SeriesFromFrame rewrites the frame: time column first, value column as nullable floats and
   * renamed after the frame if that has a name.
   */
  method SeriesFromFrame(frame: Frame) returns (err: Option<SeriesError>)
    modifies frame
    ensures
      var t := old(frame.Contents());
      match SeriesOf(t)
      case Ok(series) => err == None && frame.Contents() == series
      case Err(e) =>
        && err == Some(e)
        && frame.fields == if |t.fields| == 2 then [AsNullable(t.fields[0]), AsNullable(t.fields[1])] else t.fields
  {
    if |frame.fields| != 2 {
      return Some(NotTwoFields(|frame.fields|));
    }
    LastOfTwo(frame.fields, true);
    LastOfTwo(frame.fields, false);
    var found := FindColumns(frame);
    if found.timeIdx == -1 {
      return Some(NoTimeColumn);
    }
    if found.valueIdx == -1 {
      return Some(NoValueColumn);
    }
    var time, value := frame.fields[found.timeIdx], frame.fields[found.valueIdx];
    if found.timeNullable {
      var missing := HasNull(time.cells);
      if missing {
        return Some(NullTimestamp);
      }
      time := time.(kind := TimeKind, labels := map[]);
    }
    if !found.valueNullable {
      value := value.(kind := NullableFloat64);
    }
    if frame.name != "" {
      value := value.(name := frame.name);
    }
    frame.fields := [time, value];
    err := None;
  }

  // ---------------------------------------------------------------- naming series

  /** The three sources of a name, in precedence order. */
  datatype Selector = DisplayNameFromDS | DisplayName | FieldName

  function Select(sel: Selector, f: Field): string {
    match sel
    case FieldName => f.name
    case DisplayNameFromDS => if f.config.None? then "" else f.config.value.displayNameFromDS
    case DisplayName => if f.config.None? then "" else f.config.value.displayName
  }

  const NAME_LABEL := "__name__"

  /** The function a fixer applies to a series: its labels become the one name. */
  method SetName(series: Frame, name: string)
    requires |series.fields| == 2
    modifies series
    ensures series.Contents() == Named(old(series.Contents()), name)
  {
    series.fields := series.fields[1 := series.fields[1].(labels := map[NAME_LABEL := name])];
  }

  function Named(t: Table, name: string): Table
    requires |t.fields| == 2
  {
    t.(fields := t.fields[1 := t.fields[1].(labels := map[NAME_LABEL := name])])
  }

  // ---------------------------------------------------------------- splitting a frame

  predicate WellFormed(t: Table, s: Schema) {
    && s.Wide? && s.timeIndex < |t.fields| && IsTime(t.fields[s.timeIndex].kind)
    && |s.valueIndices| > 0 && Rectangular(t.fields)
    && forall i :: 0 <= i < |s.valueIndices| ==> s.valueIndices[i] < |t.fields| && !IsTime(t.fields[s.valueIndices[i]].kind)
  }

  function ValueField(t: Table, s: Schema, i: nat): Field
    requires WellFormed(t, s) && i < |s.valueIndices|
  {
    t.fields[s.valueIndices[i]]
  }

  /** The series of value column i, before any naming. */
  function Column(t: Table, s: Schema, i: nat): (r: Result<Table, SeriesError>)
    requires WellFormed(t, s) && i < |s.valueIndices|
    ensures r.Ok? ==> |r.value.fields| == 2 && (|s.valueIndices| == 1 ==> |t.fields| == 2)
  {
    var time := t.fields[s.timeIndex];
    if |s.valueIndices| == 1 then
      if |t.fields| != 2 then Err(NotTwoFields(|t.fields|)) else AsSeries(t, time, ValueField(t, s, 0))
    else
      AsSeries(t, time.(labels := map[], config := None), ValueField(t, s, i))
  }

  /**
   * What the series of a value column is, and when there is none: a null timestamp, a numeric
   * column without rows that has to be converted, or a single value column among others.
   */
  lemma ColumnMeaning(t: Table, s: Schema, i: nat)
    requires WellFormed(t, s) && i < |s.valueIndices|
    ensures
      var time, f := t.fields[s.timeIndex], t.fields[s.valueIndices[i]];
      && (Column(t, s, i).Ok? <==>
            && (|s.valueIndices| == 1 ==> |t.fields| == 2)
            && !(f.kind == OtherNumeric && f.cells == [])
            && !(time.kind == NullableTimeKind && Null in time.cells))
      && (Column(t, s, i).Ok? ==>
            var r := Column(t, s, i).value;
            && r.name == t.name && |r.fields| == 2
            && r.fields[0].cells == time.cells && r.fields[0].name == time.name && r.fields[0].kind == TimeKind
            && r.fields[0].config == (if |s.valueIndices| == 1 then time.config else None)
            && IsValueColumn(r.fields[1], f, t.name))
  {
    var time := t.fields[s.timeIndex];
    assert Null in time.cells <==> !NoNulls(time.cells);
  }

  /**
   * The name a fixer gives to the series of value column i. With a single value column the
   * original frame has been rewritten by then, and the column index is applied to the result.
   */
  function AssignedName(t: Table, s: Schema, sel: Selector, i: nat): string
    requires WellFormed(t, s) && i < |s.valueIndices| && Column(t, s, i).Ok?
  {
    if |s.valueIndices| == 1 then
      Select(sel, Column(t, s, 0).value.fields[s.valueIndices[0]])
    else Select(sel, ValueField(t, s, i))
  }

  function Finished(t: Table, s: Schema, fixer: Option<Selector>, i: nat): Table
    requires WellFormed(t, s) && i < |s.valueIndices| && Column(t, s, i).Ok?
  {
    var series := Column(t, s, i).value;
    match fixer
    case None => series
    case Some(sel) => Named(series, AssignedName(t, s, sel, i))
  }

  ghost predicate AllColumnsOk(t: Table, s: Schema)
    requires WellFormed(t, s)
  {
    forall i :: 0 <= i < |s.valueIndices| ==> Column(t, s, i).Ok?
  }

  /** Copies the time and value cells of one column, row by row, into a new frame. */
  method CopyColumn(name: string, time: Field, value: Field) returns (f: Frame)
    requires |time.cells| == |value.cells|
    ensures fresh(f) && f.Contents() == Table(name, [time.(labels := map[], config := None), value])
  {
    var times, values: seq<Cell> := [], [];
    for i := 0 to |time.cells|
      invariant times == time.cells[..i] && values == value.cells[..i]
    {
      times, values := times + [time.cells[i]], values + [value.cells[i]];
    }
    assert times == time.cells && values == value.cells;
    f := new Frame(name, [
      Field(time.name, time.kind, map[], None, times),
      Field(value.name, value.kind, value.labels, value.config, values)]);
  }

  /** A frame with a single value column becomes the series itself. */
  method ConvertSingle(frame: Frame, tsSchema: Schema, fixer: Option<Selector>) returns (r: Result<seq<Frame>, SeriesError>)
    requires WellFormed(frame.Contents(), tsSchema) && |tsSchema.valueIndices| == 1
    modifies frame
    ensures r.Ok? <==> old(Column(frame.Contents(), tsSchema, 0).Ok?)
    ensures r.Ok? ==> r.value == [frame] && frame.Contents() == old(Finished(frame.Contents(), tsSchema, fixer, 0))
  {
    assert IsTime(frame.fields[tsSchema.timeIndex].kind) && !IsTime(frame.fields[tsSchema.valueIndices[0]].kind);
    var err := SeriesFromFrame(frame);
    if err.Some? {
      return Err(err.value);
    }
    if fixer.Some? {
      SetName(frame, Select(fixer.value, frame.fields[tsSchema.valueIndices[0]]));
    }
    return Ok([frame]);
  }

  /** The body of the loop of WideToMany: one of several value columns as a new series. */
  method ConvertColumn(frame: Frame, tsSchema: Schema, fixer: Option<Selector>, i: nat) returns (r: Result<Frame, SeriesError>)
    requires WellFormed(frame.Contents(), tsSchema) && i < |tsSchema.valueIndices| && |tsSchema.valueIndices| > 1
    ensures r.Ok? <==> Column(frame.Contents(), tsSchema, i).Ok?
    ensures r.Ok? ==> fresh(r.value) && r.value.Contents() == Finished(frame.Contents(), tsSchema, fixer, i)
  {
    var valueField := frame.fields[tsSchema.valueIndices[i]];
    var f := CopyColumn(frame.name, frame.fields[tsSchema.timeIndex], valueField);
    var err := SeriesFromFrame(f);
    if err.Some? {
      return Err(err.value);
    }
    if fixer.Some? {
      SetName(f, Select(fixer.value, valueField));
    }
    return Ok(f);
  }

  /** The frames are the finished series of the first columns. */
  ghost predicate HoldColumns(series: seq<Frame>, t: Table, s: Schema, fixer: Option<Selector>)
    requires WellFormed(t, s) && |series| <= |s.valueIndices|
    reads series
  {
    forall k :: 0 <= k < |series| ==> Column(t, s, k).Ok? && series[k].Contents() == Finished(t, s, fixer, k)
  }

  /** The loop of WideToMany: every column becomes a new series. */
  method ConvertColumns(frame: Frame, tsSchema: Schema, fixer: Option<Selector>) returns (r: Result<seq<Frame>, SeriesError>)
    requires WellFormed(frame.Contents(), tsSchema) && |tsSchema.valueIndices| > 1
    ensures r.Ok? <==> AllColumnsOk(frame.Contents(), tsSchema)
    ensures r.Ok? ==> |r.value| == |tsSchema.valueIndices| && Distinct(r.value) && forall i :: 0 <= i < |r.value| ==> fresh(r.value[i])
    ensures r.Ok? ==> HoldColumns(r.value, frame.Contents(), tsSchema, fixer)
  {
    var series: seq<Frame> := [];
    ghost var t := frame.Contents();
    for i := 0 to |tsSchema.valueIndices|
      invariant |series| == i
      invariant Distinct(series) && HoldColumns(series, t, tsSchema, fixer)
      invariant forall k :: 0 <= k < i ==> fresh(series[k])
    {
      var f := ConvertColumn(frame, tsSchema, fixer, i);
      if f.Err? {
        assert Column(t, tsSchema, i).Err?;
        return Err(f.error);
      }
      HoldOneMore(series, f.value, t, tsSchema, fixer);
      series := series + [f.value];
    }
    return Ok(series);
  }

  lemma HoldOneMore(series: seq<Frame>, f: Frame, t: Table, s: Schema, fixer: Option<Selector>)
    requires WellFormed(t, s) && |series| < |s.valueIndices| && HoldColumns(series, t, s, fixer)
    requires Column(t, s, |series|).Ok? && f.Contents() == Finished(t, s, fixer, |series|)
    ensures HoldColumns(series + [f], t, s, fixer)
  {
  }

  /** WideToMany: one series per value column, or the first error met. */
  method WideToMany(frame: Frame, schemaOf: seq<Field> -> Schema, fixer: Option<Selector>)
    returns (r: Result<seq<Frame>, SeriesError>)
    requires Sound(schemaOf) && Rectangular(frame.fields)
    modifies frame
    ensures !old(schemaOf(frame.fields)).Wide? ==> r == Err(NotWide)
    ensures old(schemaOf(frame.fields)).Wide? ==>
      var t, s := old(frame.Contents()), old(schemaOf(frame.fields));
      && WellFormed(t, s)
      && (r.Ok? <==> AllColumnsOk(t, s))
      && (r.Ok? ==> |r.value| == |s.valueIndices| && Distinct(r.value))
      && (r.Ok? ==> forall i :: 0 <= i < |r.value| ==> r.value[i] == frame || fresh(r.value[i]))
      && (r.Ok? ==> HoldColumns(r.value, t, s, fixer))
  {
    var tsSchema := schemaOf(frame.fields);
    if !tsSchema.Wide? {
      return Err(NotWide);
    }
    if |tsSchema.valueIndices| == 1 {
      r := ConvertSingle(frame, tsSchema, fixer);
    } else {
      r := ConvertColumns(frame, tsSchema, fixer);
    }
  }
}
