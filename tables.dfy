/**
 * Table assembly: each column becomes its dimension, its interval dimensions and its additional
 * dimensions; metrics of the three sources are merged and re-indexed; name collisions and a
 * missing relation are rejected.
 */
module Tables {
  import opened Wrappers
  import opened JsText
  import opened Dicts
  import opened Fields
  import opened Errors
  import opened Dbt
  import opened ExploreTypes
  import opened Env
  import opened Dimensions
  import LegacyMetrics

  /** `normalizePrimaryKey`: a single name becomes a one-element list; an empty name is no key. */
  function NormalizePrimaryKey(pk: Option<PrimaryKey>): (r: Option<seq<string>>)
    ensures r.Some? <==> pk.Some? && (pk.value.KeyList? || pk.value.name != "")
    ensures r.Some? && pk.value.KeyName? ==> r.value == [pk.value.name]
    ensures r.Some? && pk.value.KeyList? ==> r.value == pk.value.names
  {
    match pk
    case None => None
    case Some(KeyName(n)) => if n != "" then Some([n]) else None
    case Some(KeyList(ns)) => Some(ns)
  }

  /** What is fixed for one table while its columns are converted. */
  datatype Ctx = Ctx(env: Env, adapter: Adapter, modelName: string, tableLabel: string, startOfWeek: Option<WeekDay>)

  function Convert(c: Ctx, index: int, column: Column, timeInterval: Option<TimeFrame>, isAdditional: bool): Result<Dimension, Exception> {
    DimensionFor(c.env, index, c.adapter, c.modelName, c.tableLabel, column, timeInterval, c.startOfWeek, isAdditional)
  }

  /** The key an interval dimension is stored under: the name of the dimension it was made from. */
  function IntervalKey(dim: Dimension, tf: TimeFrame): string {
    dim.name + "_" + Lower(tf)
  }

  /**
   * The column an interval of an additional dimension is converted from: the outer column renamed,
   * with the column's dimension block overridden by the additional dimension's resolved fields.
   */
  function AdditionalIntervalColumn(column: Column, columnDimension: DimensionMeta, dim: Dimension): Column {
    var dm := columnDimension.(typeName := Some(dim.dimensionType.Name()), labelText := Some(dim.labelText),
      groups := Some(dim.groups), sql := Some(dim.sql), description := dim.description);
    Column(dim.name, column.dataType, column.description, ColumnMeta(Some(dm), None, None), column.configMeta)
  }

  /** The intervals of an interval base: the column's own list, the additional dimension's list, or the defaults. */
  function IntervalsOf(env: Env, dim: Dimension, columnDimension: DimensionMeta, overrideIntervals: Option<TimeIntervals>): seq<TimeFrame> {
    if !dim.isAdditionalDimension && columnDimension.timeIntervals.Some? && columnDimension.timeIntervals.value.Frames? then
      env.validateTimeFrames(columnDimension.timeIntervals.value.frames)
    else if dim.isAdditionalDimension && overrideIntervals.Some? && overrideIntervals.value.Frames? then
      env.validateTimeFrames(overrideIntervals.value.frames)
    else env.defaultTimeFrames(dim.dimensionType)
  }

  /** The reduce over the intervals, adding one dimension per interval. */
  function IntervalDims(c: Ctx, index: int, source: Column, dim: Dimension, intervals: seq<TimeFrame>, acc: Dict<Dimension>): Result<Dict<Dimension>, Exception>
    decreases |intervals|
  {
    if |intervals| == 0 then Success(acc)
    else
      var d :- Convert(c, index, source, Some(intervals[0]), dim.isAdditionalDimension);
      IntervalDims(c, index, source, dim, intervals[1..], Put(acc, IntervalKey(dim, intervals[0]), d))
  }

  /** `processIntervalDimension`: nothing unless the dimension is an interval base. */
  function ProcessInterval(c: Ctx, index: int, column: Column, columnDimension: DimensionMeta, dim: Dimension, overrideIntervals: Option<TimeIntervals>): Result<Dict<Dimension>, Exception> {
    if !dim.isIntervalBase then Success([])
    else
      var source := if dim.isAdditionalDimension then AdditionalIntervalColumn(column, columnDimension, dim) else column;
      IntervalDims(c, index, source, dim, IntervalsOf(c.env, dim, columnDimension, overrideIntervals), [])
  }

  /** The column an additional dimension is converted from. */
  function AdditionalColumn(column: Column, subName: string, sub: DimensionMeta): Column {
    Column(subName, column.dataType, column.description, ColumnMeta(Some(sub), None, None), column.configMeta)
  }

  /** The reduce over `additional_dimensions`: each one, then its intervals. */
  function AdditionalDims(c: Ctx, index: int, column: Column, columnDimension: DimensionMeta, subs: Dict<DimensionMeta>, acc: Dict<Dimension>): Result<Dict<Dimension>, Exception>
    decreases |subs|
  {
    if |subs| == 0 then Success(acc)
    else
      var (subName, sub) := subs[0];
      var ad :- Convert(c, index, AdditionalColumn(column, subName, sub), None, true);
      var intervals :- ProcessInterval(c, index, column, columnDimension, ad, sub.timeIntervals);
      AdditionalDims(c, index, column, columnDimension, subs[1..], Spread(Put(acc, subName, ad), intervals))
  }

  /** The metrics declared on a column, converted in declaration order. */
  function ColumnMetrics(c: Ctx, dim: Dimension, specs: Dict<MetricSpec>): Result<Dict<Metric>, Exception>
    decreases |specs|
  {
    if |specs| == 0 then Success([])
    else
      var m :- c.env.convertColumnMetric(ColumnMetricInput(c.modelName, dim.name, dim.sql, specs[0].0, specs[0].1, c.tableLabel));
      var rest :- ColumnMetrics(c, dim, specs[1..]);
      Success([(specs[0].0, m)] + rest)
  }

  /** One step of the reduce over the columns. */
  function ColumnStep(c: Ctx, index: int, column: Column, dims: Dict<Dimension>, metrics: Dict<Metric>): Result<(Dict<Dimension>, Dict<Metric>), Exception> {
    var dimension :- Convert(c, index, column, None, false);
    var columnMeta := ColumnMetaOf(column);
    var columnDimension := columnMeta.dimension.GetOr(NoDimensionMeta);
    var ownIntervals :- ProcessInterval(c, index, column, columnDimension, dimension, None);
    var extra :- AdditionalDims(c, index, column, columnDimension, columnMeta.additionalDimensions.GetOr([]), ownIntervals);
    var columnMetrics :- ColumnMetrics(c, dimension, columnMeta.metrics.GetOr([]));
    Success((Spread(Put(dims, column.name, dimension), extra), Spread(metrics, FromEntries(columnMetrics))))
  }

  /** The reduce over the columns, the `index` being a column's position. */
  function ColumnsFold(c: Ctx, columns: seq<Column>, start: int, dims: Dict<Dimension>, metrics: Dict<Metric>): Result<(Dict<Dimension>, Dict<Metric>), Exception>
    decreases |columns|
  {
    if |columns| == 0 then Success((dims, metrics))
    else
      var (dims', metrics') :- ColumnStep(c, start, columns[0], dims, metrics);
      ColumnsFold(c, columns[1..], start + 1, dims', metrics')
  }

  /** The metrics declared on the model. */
  function ModelMetrics(c: Ctx, specs: Dict<MetricSpec>): Result<Dict<Metric>, Exception>
    decreases |specs|
  {
    if |specs| == 0 then Success([])
    else
      var m :- c.env.convertModelMetric(ModelMetricInput(c.modelName, specs[0].0, specs[0].1, c.tableLabel));
      var rest :- ModelMetrics(c, specs[1..]);
      Success([(specs[0].0, m)] + rest)
  }

  /** The legacy metrics the model can use, keyed by their names. */
  function LegacyMetricEntries(c: Ctx, dbtMetrics: seq<DbtMetric>): Result<Dict<Metric>, Exception>
    decreases |dbtMetrics|
  {
    if |dbtMetrics| == 0 then Success([])
    else
      var m :- LegacyMetrics.LegacyMetricFor(c.env, dbtMetrics[0], c.modelName, c.tableLabel);
      var rest :- LegacyMetricEntries(c, dbtMetrics[1..]);
      Success([(dbtMetrics[0].name, m)] + rest)
  }

  /** `{...legacy, ...model, ...column}`. */
  function MergeMetrics(legacy: Dict<Metric>, model: Dict<Metric>, column: Dict<Metric>): Dict<Metric> {
    Spread(Spread(Spread([], legacy), model), column)
  }

  /** The reduce that keys each metric by its name and numbers it by its position. */
  function Reindex(ms: seq<Metric>): Dict<Metric>
    decreases |ms|
  {
    if |ms| == 0 then []
    else
      var last := ms[|ms| - 1];
      Put(Reindex(ms[..|ms| - 1]), last.name, last.(index := Some(|ms| - 1)))
  }

  /** The metric keys that are also dimension keys, in metric order. */
  function Duplicates(metricKeys: seq<string>, dimensionKeys: seq<string>): (r: seq<string>)
    ensures forall k :: k in r <==> k in metricKeys && k in dimensionKeys
  {
    if |metricKeys| == 0 then []
    else
      var rest := Duplicates(metricKeys[1..], dimensionKeys);
      if metricKeys[0] in dimensionKeys then [metricKeys[0]] + rest else rest
  }

  /** The message for colliding names; `${list}` prints an array joined by commas. */
  function CollisionMessage(dup: seq<string>): string {
    (if |dup| > 1 then "Found multiple metrics and a dimensions with the same name:"
     else "Found a metric and a dimension with the same name:") + " " + Join(dup, ",")
  }

  function NoRelationMessage(modelName: string): string {
    "Model \"" + modelName + "\" has no table relation"
  }

  function GroupOf(g: GroupSpec): GroupType {
    GroupType(g.labelText, g.description)
  }

  function GroupEntries(d: Dict<GroupSpec>): (r: Dict<GroupType>)
    ensures |r| == |d|
    ensures forall i :: 0 <= i < |d| ==> r[i] == (d[i].0, GroupOf(d[i].1))
  {
    seq(|d|, i requires 0 <= i < |d| => (d[i].0, GroupOf(d[i].1)))
  }

  /** The group details object: each entry's label and description, assigned key by key. */
  function GroupDetailsOf(d: Option<Dict<GroupSpec>>): Dict<GroupType> {
    if d.None? then [] else FromEntries(GroupEntries(d.value))
  }

  /** The `forEach` that fills `groupDetails` in place. */
  method FillGroupDetails(d: Option<Dict<GroupSpec>>) returns (groupDetails: Dict<GroupType>)
    ensures groupDetails == GroupDetailsOf(d)
  {
    groupDetails := [];
    if d.Some? {
      var entries := d.value;
      var i := 0;
      while i < |entries|
        invariant 0 <= i <= |entries|
        invariant groupDetails == FromEntries(GroupEntries(entries)[..i])
      {
        var (key, data) := entries[i];
        assert GroupEntries(entries)[..i + 1] == GroupEntries(entries)[..i] + [(key, GroupOf(data))];
        SpreadSnoc([], GroupEntries(entries)[..i], key, GroupOf(data));
        groupDetails := Put(groupDetails, key, GroupType(data.labelText, data.description));
        i := i + 1;
      }
      assert GroupEntries(entries)[..|entries|] == GroupEntries(entries);
    }
  }

  /** The fields of a table before the checks: its dimensions and its merged, numbered metrics. */
  function TableFields(env: Env, adapter: Adapter, model: Model, dbtMetrics: seq<DbtMetric>, startOfWeek: Option<WeekDay>): Result<(Dict<Dimension>, Dict<Metric>), Exception> {
    var meta := ModelMetaOf(model);
    var tableLabel := OrElse(meta.labelText, env.friendlyName(model.name));
    var c := Ctx(env, adapter, model.name, tableLabel, startOfWeek);
    var (dims, columnMetrics) :- ColumnsFold(c, Values(model.columns), 0, [], []);
    var modelMetrics :- ModelMetrics(c, meta.metrics.GetOr([]));
    var legacy :- LegacyMetricEntries(c, dbtMetrics);
    Success((dims, Reindex(Values(MergeMetrics(FromEntries(legacy), FromEntries(modelMetrics), columnMetrics)))))
  }

  /** What `convertTable` returns or throws; the lineage graph is attached later. */
  function ConvertTable(env: Env, adapter: Adapter, model: Model, dbtMetrics: seq<DbtMetric>, startOfWeek: Option<WeekDay>): Result<Table, Exception> {
    var meta := ModelMetaOf(model);
    var (dims, all) :- TableFields(env, adapter, model, dbtMetrics, startOfWeek);
    var dup := Duplicates(Keys(all), Keys(dims));
    if |dup| > 0 then Failure(ParseError(CollisionMessage(dup)))
    else if !Truthy(model.relationName) then Failure(PlainError(NoRelationMessage(model.name)))
    else Success(Table(model.name, OrElse(meta.labelText, env.friendlyName(model.name)), model.database, model.schema,
      OrElse(meta.sqlFrom, model.relationName.value),
      OrElse(model.description, model.name + " table"),
      dims, all, meta.groupLabel, NormalizePrimaryKey(meta.primaryKey),
      OrOpt(meta.sqlFilter, meta.sqlWhere), GroupDetailsOf(meta.groupDetails), None))
  }

  // ---------------------------------------------------------------------------------------
  // Properties.

  /**
   * On a shared name the column metric wins over the model metric, which wins over the legacy
   * one; the keys are those of the three sources.
   */
  lemma MetricPrecedence(legacy: Dict<Metric>, model: Dict<Metric>, column: Dict<Metric>, k: string)
    requires DistinctKeys(column)
    ensures Get(MergeMetrics(FromEntries(legacy), FromEntries(model), column), k) ==
      if k in Keys(column) then Get(column, k)
      else if k in Keys(model) then Get(FromEntries(model), k)
      else Get(FromEntries(legacy), k)
    ensures k in Keys(MergeMetrics(FromEntries(legacy), FromEntries(model), column)) <==>
      k in Keys(legacy) || k in Keys(model) || k in Keys(column)
  {
    var l := FromEntries(legacy);
    var m := FromEntries(model);
    FromEntriesDistinct(legacy);
    FromEntriesDistinct(model);
    SpreadGet(Spread([], l), m, k);
    SpreadGet([], l, k);
    SpreadGet(Spread(Spread([], l), m), column, k);
    SpreadKeys([], l, k);
    SpreadKeys(Spread([], l), m, k);
    SpreadKeys(Spread(Spread([], l), m), column, k);
    SpreadKeys([], legacy, k);
    SpreadKeys([], model, k);
    assert k in Keys(m) <==> k in Keys(model);
  }

  /** Metrics named after their keys keep that order and are numbered 0 to n-1. */
  lemma {:induction false} ReindexPositions(ms: seq<Metric>)
    requires forall i, j :: 0 <= i < j < |ms| ==> ms[i].name != ms[j].name
    ensures |Reindex(ms)| == |ms|
    ensures forall i :: 0 <= i < |ms| ==> Reindex(ms)[i] == (ms[i].name, ms[i].(index := Some(i)))
    decreases |ms|, 1
  {
    if |ms| > 0 {
      ReindexPositionsLast(ms);
    }
  }

  /** The last metric is appended after the ones before it, which keep their positions. */
  lemma {:induction false} ReindexPositionsLast(ms: seq<Metric>)
    requires |ms| > 0
    requires forall i, j :: 0 <= i < j < |ms| ==> ms[i].name != ms[j].name
    ensures |Reindex(ms)| == |ms|
    ensures forall i :: 0 <= i < |ms| ==> Reindex(ms)[i] == (ms[i].name, ms[i].(index := Some(i)))
    decreases |ms|, 0
  {
    var n := |ms| - 1;
    var init := ms[..n];
    var last := ms[n];
    assert forall i :: 0 <= i < n ==> init[i] == ms[i];
    ReindexPositions(init);
    var prev := Reindex(init);
    assert forall i :: 0 <= i < |prev| ==> prev[i].0 != last.name;
    AbsentKey(prev, last.name);
    var v := last.(index := Some(n));
    var r := prev + [(last.name, v)];
    assert Reindex(ms) == r;
    forall i | 0 <= i < |ms| ensures r[i] == (ms[i].name, ms[i].(index := Some(i))) {
      if i < n {
        SnocBefore(prev, (last.name, v), i);
      }
    }
  }

  lemma SnocBefore<T>(s: seq<T>, x: T, i: nat)
    requires i < |s|
    ensures (s + [x])[i] == s[i]
  {
  }

  /** A successful table has no metric whose name is a dimension's key. */
  lemma TableFieldNamesUnique(env: Env, adapter: Adapter, model: Model, dbtMetrics: seq<DbtMetric>, startOfWeek: Option<WeekDay>)
    requires ConvertTable(env, adapter, model, dbtMetrics, startOfWeek).Success?
    ensures FieldNamesUnique(ConvertTable(env, adapter, model, dbtMetrics, startOfWeek).value)
  {
    var t := ConvertTable(env, adapter, model, dbtMetrics, startOfWeek).value;
    assert forall k :: k in Keys(t.metrics) ==> k !in Keys(t.dimensions) by {
      forall k | k in Keys(t.metrics) ensures k !in Keys(t.dimensions) {
        assert k !in Duplicates(Keys(t.metrics), Keys(t.dimensions));
      }
    }
  }

  /**
   * Once the fields are converted, a name collision is reported before a missing relation; a
   * successful table reads from `sql_from`, else the relation, and filters with `sql_filter`,
   * else `sql_where`.
   */
  lemma TableChecksInOrder(env: Env, adapter: Adapter, model: Model, dbtMetrics: seq<DbtMetric>, startOfWeek: Option<WeekDay>)
    ensures var f := TableFields(env, adapter, model, dbtMetrics, startOfWeek);
      var r := ConvertTable(env, adapter, model, dbtMetrics, startOfWeek);
      var meta := ModelMetaOf(model);
      && (f.Failure? ==> r == Failure(f.error))
      && (f.Success? ==>
            var dup := Duplicates(Keys(f.value.1), Keys(f.value.0));
            && (|dup| > 0 ==> r == Failure(ParseError(CollisionMessage(dup))))
            && (|dup| == 0 && !Truthy(model.relationName) ==> r == Failure(PlainError(NoRelationMessage(model.name))))
            && (|dup| == 0 && Truthy(model.relationName) ==>
                  && r.Success?
                  && r.value.dimensions == f.value.0 && r.value.metrics == f.value.1
                  && r.value.sqlTable == OrElse(meta.sqlFrom, model.relationName.value)
                  && r.value.sqlWhere == OrOpt(meta.sqlFilter, meta.sqlWhere)
                  && r.value.description == OrElse(model.description, model.name + " table")
                  && r.value.labelText == OrElse(meta.labelText, env.friendlyName(model.name))
                  && r.value.primaryKey == NormalizePrimaryKey(meta.primaryKey)
                  && r.value.lineageGraph.None?))
  {
  }

  /** The collision message is singular for one name and plural for several. */
  lemma CollisionMessageForms(dup: seq<string>)
    requires |dup| > 0
    ensures |dup| == 1 ==> CollisionMessage(dup) == "Found a metric and a dimension with the same name: " + dup[0]
    ensures |dup| > 1 ==>
      CollisionMessage(dup) == "Found multiple metrics and a dimensions with the same name: " + dup[0] + "," + Join(dup[1..], ",")
  {
  }

  /** Group details keep every key of the metadata, with its label and description. */
  lemma GroupDetailsLookup(d: Dict<GroupSpec>, k: string)
    requires DistinctKeys(d)
    ensures Get(GroupDetailsOf(Some(d)), k) == match Get(d, k) case None => None case Some(g) => Some(GroupOf(g))
  {
    var e := GroupEntries(d);
    assert Keys(e) == Keys(d);
    assert DistinctKeys(e) by {
      assert forall i :: 0 <= i < |e| ==> e[i].0 == d[i].0;
    }
    SpreadGet([], e, k);
    FindByKeys(e, d, k);
  }

  /**
   * An entry made for an interval: stored under the key built from the name of the dimension it
   * was made from, while its own name is built from the name of the column it was converted from.
   */
  ghost predicate IntervalEntry(dim: Dimension, source: Column, k: string, d: Dimension) {
    && d.timeInterval.Some?
    && k == IntervalKey(dim, d.timeInterval.value)
    && d.name == source.name + "_" + Lower(d.timeInterval.value)
    && !d.isIntervalBase
  }

  ghost predicate AllIntervalEntries(dim: Dimension, source: Column, r: Dict<Dimension>) {
    forall k :: k in Keys(r) ==> IntervalEntry(dim, source, k, Get(r, k).value)
  }

  lemma {:induction false} IntervalDimsEntries(c: Ctx, index: int, source: Column, dim: Dimension, intervals: seq<TimeFrame>, acc: Dict<Dimension>)
    requires AllIntervalEntries(dim, source, acc)
    requires IntervalDims(c, index, source, dim, intervals, acc).Success?
    ensures AllIntervalEntries(dim, source, IntervalDims(c, index, source, dim, intervals, acc).value)
    decreases |intervals|
  {
    if |intervals| > 0 {
      var tf := intervals[0];
      var d := Convert(c, index, source, Some(tf), dim.isAdditionalDimension).value;
      IntervalOfBase(c.env, index, c.adapter, c.modelName, c.tableLabel, source, tf, c.startOfWeek, dim.isAdditionalDimension);
      var acc' := Put(acc, IntervalKey(dim, tf), d);
      forall k | k in Keys(acc') ensures IntervalEntry(dim, source, k, Get(acc', k).value) {
        PutKeys(acc, IntervalKey(dim, tf), d, k);
      }
      IntervalDimsEntries(c, index, source, dim, intervals[1..], acc');
    }
  }

  /** Every dimension `processIntervalDimension` adds is an interval entry of the dimension. */
  lemma ProcessIntervalEntries(c: Ctx, index: int, column: Column, columnDimension: DimensionMeta, dim: Dimension, overrideIntervals: Option<TimeIntervals>)
    requires ProcessInterval(c, index, column, columnDimension, dim, overrideIntervals).Success?
    ensures var source := if dim.isAdditionalDimension then AdditionalIntervalColumn(column, columnDimension, dim) else column;
      AllIntervalEntries(dim, source, ProcessInterval(c, index, column, columnDimension, dim, overrideIntervals).value)
    ensures !dim.isIntervalBase ==> ProcessInterval(c, index, column, columnDimension, dim, overrideIntervals).value == []
  {
    if dim.isIntervalBase {
      var source := if dim.isAdditionalDimension then AdditionalIntervalColumn(column, columnDimension, dim) else column;
      IntervalDimsEntries(c, index, source, dim, IntervalsOf(c.env, dim, columnDimension, overrideIntervals), []);
    }
  }

  /** The keys of the interval entries the loop makes, one per interval of the list. */
  ghost function IntervalKeys(dim: Dimension, intervals: seq<TimeFrame>): set<string> {
    set i | 0 <= i < |intervals| :: IntervalKey(dim, intervals[i])
  }

  lemma IntervalKeysCons(dim: Dimension, intervals: seq<TimeFrame>, k: string)
    requires |intervals| > 0
    ensures k in IntervalKeys(dim, intervals) <==> k == IntervalKey(dim, intervals[0]) || k in IntervalKeys(dim, intervals[1..])
  {
    if k in IntervalKeys(dim, intervals) {
      var i :| 0 <= i < |intervals| && k == IntervalKey(dim, intervals[i]);
      if i > 0 {
        assert intervals[1..][i - 1] == intervals[i];
      }
    }
    if k in IntervalKeys(dim, intervals[1..]) {
      var i :| 0 <= i < |intervals[1..]| && k == IntervalKey(dim, intervals[1..][i]);
      assert intervals[i + 1] == intervals[1..][i];
    }
  }

  /** The interval loop adds an entry for every interval of the list, and no other key. */
  lemma {:induction false} IntervalDimsKeys(c: Ctx, index: int, source: Column, dim: Dimension, intervals: seq<TimeFrame>, acc: Dict<Dimension>, k: string)
    requires IntervalDims(c, index, source, dim, intervals, acc).Success?
    ensures k in Keys(IntervalDims(c, index, source, dim, intervals, acc).value) <==> k in Keys(acc) || k in IntervalKeys(dim, intervals)
    decreases |intervals|
  {
    if |intervals| > 0 {
      var d := Convert(c, index, source, Some(intervals[0]), dim.isAdditionalDimension).value;
      var acc' := Put(acc, IntervalKey(dim, intervals[0]), d);
      IntervalDimsKeys(c, index, source, dim, intervals[1..], acc', k);
      PutKeys(acc, IntervalKey(dim, intervals[0]), d, k);
      IntervalKeysCons(dim, intervals, k);
    }
  }

  lemma {:induction false} IntervalDimsDistinct(c: Ctx, index: int, source: Column, dim: Dimension, intervals: seq<TimeFrame>, acc: Dict<Dimension>)
    requires DistinctKeys(acc)
    requires IntervalDims(c, index, source, dim, intervals, acc).Success?
    ensures DistinctKeys(IntervalDims(c, index, source, dim, intervals, acc).value)
    decreases |intervals|
  {
    if |intervals| > 0 {
      var d := Convert(c, index, source, Some(intervals[0]), dim.isAdditionalDimension).value;
      PutKeepsDistinct(acc, IntervalKey(dim, intervals[0]), d);
      IntervalDimsDistinct(c, index, source, dim, intervals[1..], Put(acc, IntervalKey(dim, intervals[0]), d));
    }
  }

  /**
   * `processIntervalDimension` gives an interval base one entry per configured (or default)
   * interval, keyed `dim.name_interval`, with each key once; any other dimension gets none.
   */
  lemma ProcessIntervalKeys(c: Ctx, index: int, column: Column, columnDimension: DimensionMeta, dim: Dimension, overrideIntervals: Option<TimeIntervals>, k: string)
    requires ProcessInterval(c, index, column, columnDimension, dim, overrideIntervals).Success?
    ensures var r := ProcessInterval(c, index, column, columnDimension, dim, overrideIntervals).value;
      && (k in Keys(r) <==> dim.isIntervalBase && k in IntervalKeys(dim, IntervalsOf(c.env, dim, columnDimension, overrideIntervals)))
      && DistinctKeys(r)
  {
    if dim.isIntervalBase {
      var source := if dim.isAdditionalDimension then AdditionalIntervalColumn(column, columnDimension, dim) else column;
      var intervals := IntervalsOf(c.env, dim, columnDimension, overrideIntervals);
      IntervalDimsKeys(c, index, source, dim, intervals, [], k);
      IntervalDimsDistinct(c, index, source, dim, intervals, []);
    }
  }

  /** The interval keys an additional dimension brings along, once converted. */
  ghost function AddedIntervalKeys(c: Ctx, index: int, column: Column, columnDimension: DimensionMeta, sub: (string, DimensionMeta)): set<string> {
    var ad := Convert(c, index, AdditionalColumn(column, sub.0, sub.1), None, true);
    if ad.Success? && ad.value.isIntervalBase then IntervalKeys(ad.value, IntervalsOf(c.env, ad.value, columnDimension, sub.1.timeIntervals))
    else {}
  }

  /**
   * The reduce over `additional_dimensions` adds each additional dimension under its own name and
   * its interval entries, and no other key.
   */
  lemma {:induction false} AdditionalDimsKeys(c: Ctx, index: int, column: Column, columnDimension: DimensionMeta, subs: Dict<DimensionMeta>, acc: Dict<Dimension>, k: string)
    requires AdditionalDims(c, index, column, columnDimension, subs, acc).Success?
    ensures k in Keys(AdditionalDims(c, index, column, columnDimension, subs, acc).value) <==>
      k in Keys(acc) || exists j :: 0 <= j < |subs| && (k == subs[j].0 || k in AddedIntervalKeys(c, index, column, columnDimension, subs[j]))
    decreases |subs|
  {
    if |subs| > 0 {
      var (subName, sub) := subs[0];
      var ad := Convert(c, index, AdditionalColumn(column, subName, sub), None, true).value;
      var intervals := ProcessInterval(c, index, column, columnDimension, ad, sub.timeIntervals).value;
      var acc' := Spread(Put(acc, subName, ad), intervals);
      AdditionalDimsKeys(c, index, column, columnDimension, subs[1..], acc', k);
      SpreadKeys(Put(acc, subName, ad), intervals, k);
      PutKeys(acc, subName, ad, k);
      ProcessIntervalKeys(c, index, column, columnDimension, ad, sub.timeIntervals, k);
      assert k in Keys(acc') <==> k in Keys(acc) || k == subs[0].0 || k in AddedIntervalKeys(c, index, column, columnDimension, subs[0]);
      ExistsCons(c, index, column, columnDimension, subs, k);
    }
  }

  lemma ExistsCons(c: Ctx, index: int, column: Column, columnDimension: DimensionMeta, subs: Dict<DimensionMeta>, k: string)
    requires |subs| > 0
    ensures (exists j :: 0 <= j < |subs| && (k == subs[j].0 || k in AddedIntervalKeys(c, index, column, columnDimension, subs[j]))) <==>
      (k == subs[0].0 || k in AddedIntervalKeys(c, index, column, columnDimension, subs[0])
       || exists j :: 0 <= j < |subs[1..]| && (k == subs[1..][j].0 || k in AddedIntervalKeys(c, index, column, columnDimension, subs[1..][j])))
  {
    if exists j :: 0 <= j < |subs| && (k == subs[j].0 || k in AddedIntervalKeys(c, index, column, columnDimension, subs[j])) {
      var j :| 0 <= j < |subs| && (k == subs[j].0 || k in AddedIntervalKeys(c, index, column, columnDimension, subs[j]));
      if j > 0 {
        assert subs[1..][j - 1] == subs[j];
      }
    }
    if exists j :: 0 <= j < |subs[1..]| && (k == subs[1..][j].0 || k in AddedIntervalKeys(c, index, column, columnDimension, subs[1..][j])) {
      var j :| 0 <= j < |subs[1..]| && (k == subs[1..][j].0 || k in AddedIntervalKeys(c, index, column, columnDimension, subs[1..][j]));
      assert subs[j + 1] == subs[1..][j];
    }
  }

  lemma {:induction false} AdditionalDimsDistinct(c: Ctx, index: int, column: Column, columnDimension: DimensionMeta, subs: Dict<DimensionMeta>, acc: Dict<Dimension>)
    requires DistinctKeys(acc)
    requires AdditionalDims(c, index, column, columnDimension, subs, acc).Success?
    ensures DistinctKeys(AdditionalDims(c, index, column, columnDimension, subs, acc).value)
    decreases |subs|
  {
    if |subs| > 0 {
      var (subName, sub) := subs[0];
      var ad := Convert(c, index, AdditionalColumn(column, subName, sub), None, true).value;
      var intervals := ProcessInterval(c, index, column, columnDimension, ad, sub.timeIntervals).value;
      PutKeepsDistinct(acc, subName, ad);
      SpreadKeepsDistinct(Put(acc, subName, ad), intervals);
      AdditionalDimsDistinct(c, index, column, columnDimension, subs[1..], Spread(Put(acc, subName, ad), intervals));
    }
  }

  /**
   * One column's step: the dimensions gain the column's dimension under `column.name` and its
   * interval and additional entries, which win over it on a shared key; all other keys keep their
   * dimensions.
   */
  lemma ColumnStepDims(c: Ctx, index: int, column: Column, dims: Dict<Dimension>, metrics: Dict<Metric>, k: string)
    requires ColumnStep(c, index, column, dims, metrics).Success?
    ensures var dimension := Convert(c, index, column, None, false).value;
      var columnDimension := ColumnMetaOf(column).dimension.GetOr(NoDimensionMeta);
      var own := ProcessInterval(c, index, column, columnDimension, dimension, None).value;
      var extra := AdditionalDims(c, index, column, columnDimension, ColumnMetaOf(column).additionalDimensions.GetOr([]), own).value;
      var r := ColumnStep(c, index, column, dims, metrics).value.0;
      && (k in Keys(r) <==> k in Keys(dims) || k == column.name || k in Keys(extra))
      && Get(r, k) == (if k in Keys(extra) then Get(extra, k) else if k == column.name then Some(dimension) else Get(dims, k))
  {
    var dimension := Convert(c, index, column, None, false).value;
    var columnDimension := ColumnMetaOf(column).dimension.GetOr(NoDimensionMeta);
    var own := ProcessInterval(c, index, column, columnDimension, dimension, None).value;
    var extra := AdditionalDims(c, index, column, columnDimension, ColumnMetaOf(column).additionalDimensions.GetOr([]), own).value;
    ProcessIntervalKeys(c, index, column, columnDimension, dimension, None, k);
    AdditionalDimsDistinct(c, index, column, columnDimension, ColumnMetaOf(column).additionalDimensions.GetOr([]), own);
    var base := Put(dims, column.name, dimension);
    assert ColumnStep(c, index, column, dims, metrics).value.0 == Spread(base, extra);
    SpreadKeys(base, extra, k);
    PutKeys(dims, column.name, dimension, k);
    SpreadGet(base, extra, k);
  }

  /** A column's step keeps the keys it is given and adds the column's name. */
  lemma ColumnStepKeys(c: Ctx, index: int, column: Column, dims: Dict<Dimension>, metrics: Dict<Metric>, k: string)
    requires ColumnStep(c, index, column, dims, metrics).Success?
    requires k in Keys(dims) || k == column.name
    ensures k in Keys(ColumnStep(c, index, column, dims, metrics).value.0)
  {
    ColumnStepDims(c, index, column, dims, metrics, k);
  }

  /** A successful reduce over the columns is the first column's step, then the reduce over the rest. */
  lemma ColumnsFoldStep(c: Ctx, columns: seq<Column>, start: int, dims: Dict<Dimension>, metrics: Dict<Metric>)
    requires |columns| > 0
    requires ColumnsFold(c, columns, start, dims, metrics).Success?
    ensures ColumnStep(c, start, columns[0], dims, metrics).Success?
    ensures var step := ColumnStep(c, start, columns[0], dims, metrics).value;
      ColumnsFold(c, columns, start, dims, metrics) == ColumnsFold(c, columns[1..], start + 1, step.0, step.1)
  {
  }

  /** The reduce over the columns never drops a key. */
  lemma {:induction false} ColumnsFoldKeeps(c: Ctx, columns: seq<Column>, start: int, dims: Dict<Dimension>, metrics: Dict<Metric>, k: string)
    requires ColumnsFold(c, columns, start, dims, metrics).Success?
    requires k in Keys(dims)
    ensures k in Keys(ColumnsFold(c, columns, start, dims, metrics).value.0)
    decreases |columns|
  {
    if |columns| > 0 {
      ColumnsFoldStep(c, columns, start, dims, metrics);
      var step := ColumnStep(c, start, columns[0], dims, metrics).value;
      ColumnStepKeys(c, start, columns[0], dims, metrics, k);
      ColumnsFoldKeeps(c, columns[1..], start + 1, step.0, step.1, k);
    }
  }

  /** Every column leaves a dimension under its name once the reduce is done. */
  lemma {:induction false} ColumnsFoldKeys(c: Ctx, columns: seq<Column>, start: int, dims: Dict<Dimension>, metrics: Dict<Metric>, j: nat, k: string)
    requires ColumnsFold(c, columns, start, dims, metrics).Success?
    requires j < |columns| && columns[j].name == k
    ensures k in Keys(ColumnsFold(c, columns, start, dims, metrics).value.0)
    decreases |columns|
  {
    if j == 0 {
      ColumnsFoldFirstKey(c, columns, start, dims, metrics);
    } else {
      var rest := columns[1..];
      assert rest[j - 1] == columns[j];
      ColumnsFoldStep(c, columns, start, dims, metrics);
      var step := ColumnStep(c, start, columns[0], dims, metrics).value;
      ColumnsFoldKeys(c, rest, start + 1, step.0, step.1, j - 1, k);
    }
  }

  lemma ColumnsFoldFirstKey(c: Ctx, columns: seq<Column>, start: int, dims: Dict<Dimension>, metrics: Dict<Metric>)
    requires |columns| > 0
    requires ColumnsFold(c, columns, start, dims, metrics).Success?
    ensures columns[0].name in Keys(ColumnsFold(c, columns, start, dims, metrics).value.0)
  {
    ColumnsFoldStep(c, columns, start, dims, metrics);
    var step := ColumnStep(c, start, columns[0], dims, metrics).value;
    ColumnStepKeys(c, start, columns[0], dims, metrics, columns[0].name);
    ColumnsFoldKeeps(c, columns[1..], start + 1, step.0, step.1, columns[0].name);
  }

  lemma EntryKeyMatchesName(dim: Dimension, column: Column, k: string, d: Dimension)
    requires IntervalEntry(dim, column, k, d)
    ensures d.name == k <==> dim.name == column.name
  {
    var x := "_" + Lower(d.timeInterval.value);
    assert k == dim.name + x;
    assert d.name == column.name + x;
    if column.name + x == dim.name + x {
      assert |column.name| == |dim.name|;
      assert column.name == (column.name + x)[..|column.name|];
      assert dim.name == (dim.name + x)[..|dim.name|];
    }
  }

  /**
   * A column's own interval dimensions are keyed by the base dimension's name but named after the
   * column: key and name agree exactly when the dimension keeps the column's name.
   */
  lemma IntervalKeysFollowDimensionName(c: Ctx, index: int, column: Column, columnDimension: DimensionMeta, dim: Dimension)
    requires !dim.isAdditionalDimension
    requires ProcessInterval(c, index, column, columnDimension, dim, None).Success?
    ensures var r := ProcessInterval(c, index, column, columnDimension, dim, None).value;
      forall k :: k in Keys(r) ==> (Get(r, k).value.name == k <==> dim.name == column.name)
  {
    ProcessIntervalEntries(c, index, column, columnDimension, dim, None);
    var r := ProcessInterval(c, index, column, columnDimension, dim, None).value;
    assert AllIntervalEntries(dim, column, r);
    forall k | k in Keys(r) ensures Get(r, k).value.name == k <==> dim.name == column.name {
      EntryKeyMatchesName(dim, column, k, Get(r, k).value);
    }
  }
}
