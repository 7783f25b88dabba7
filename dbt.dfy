/**
 * The dbt project shapes the compiler reads (models, columns, their `meta` blocks and the
 * legacy metrics), and the "config overrides meta" overlay that `merge({}, x.meta,
 * x.config?.meta)` performs on them.
 */
module Dbt {
  import opened Wrappers
  import opened Dicts

  /** The warehouse adapters the compiler knows. */
  datatype Adapter = BIGQUERY | SNOWFLAKE | REDSHIFT | POSTGRES | DATABRICKS | TRINO

  /** A column's `time_intervals`: `true`/`false`, a string such as `'OFF'`, or a list of names. */
  datatype TimeIntervals = Flag(on: bool) | Named(value: string) | Frames(frames: seq<string>)

  /** The `dimension` block of a column's metadata (every key optional). */
  datatype DimensionMeta = DimensionMeta(
    typeName: Option<string>,
    name: Option<string>,
    sql: Option<string>,
    labelText: Option<string>,
    description: Option<string>,
    hidden: Option<bool>,
    groups: Option<seq<string>>,
    groupLabel: Option<string>,
    timeIntervals: Option<TimeIntervals>)

  const NoDimensionMeta := DimensionMeta(None, None, None, None, None, None, None, None, None)

  /** A metric declaration inside `meta`; its keys are read only by the metric converters. */
  datatype MetricSpec = MetricSpec(fields: Dict<string>)

  /** A column's metadata: its dimension, its additional dimensions and its metrics. */
  datatype ColumnMeta = ColumnMeta(
    dimension: Option<DimensionMeta>,
    additionalDimensions: Option<Dict<DimensionMeta>>,
    metrics: Option<Dict<MetricSpec>>)

  const NoColumnMeta := ColumnMeta(None, None, None)

  datatype Column = Column(
    name: string,
    dataType: Option<string>,
    description: Option<string>,
    meta: ColumnMeta,
    configMeta: Option<ColumnMeta>)

  /** A join declared in a model's metadata. */
  datatype JoinSpec = JoinSpec(
    join: Option<string>,
    sqlOn: Option<string>,
    joinType: Option<string>,
    alias: Option<string>,
    labelText: Option<string>,
    fields: Option<seq<string>>,
    hidden: Option<bool>,
    always: Option<bool>,
    relationship: Option<string>)

  /** An additional explore declared under a model's `explores`. */
  datatype ExploreSpec = ExploreSpec(
    labelText: Option<string>,
    groupLabel: Option<string>,
    joins: Option<seq<JoinSpec>>,
    description: Option<string>)

  datatype GroupSpec = GroupSpec(labelText: Option<string>, description: Option<string>)

  /** `primary_key`: one column name or a list of names. */
  datatype PrimaryKey = KeyName(name: string) | KeyList(names: seq<string>)

  /** A model's metadata (every key optional). */
  datatype ModelMeta = ModelMeta(
    labelText: Option<string>,
    groupLabel: Option<string>,
    description: Option<string>,
    sqlFrom: Option<string>,
    sqlFilter: Option<string>,
    sqlWhere: Option<string>,
    primaryKey: Option<PrimaryKey>,
    metrics: Option<Dict<MetricSpec>>,
    explores: Option<Dict<ExploreSpec>>,
    joins: Option<seq<JoinSpec>>,
    groupDetails: Option<Dict<GroupSpec>>)

  const NoModelMeta := ModelMeta(None, None, None, None, None, None, None, None, None, None, None)

  /** `config.tags`: a single tag or a list. */
  datatype Tags = TagName(tag: string) | TagList(tags: seq<string>)

  /** A dbt model node. `columns` is the `columns` object, keyed by column name. */
  datatype Model = Model(
    uniqueId: string,
    name: string,
    database: string,
    schema: string,
    alias: Option<string>,
    relationName: Option<string>,
    description: Option<string>,
    columns: Dict<Column>,
    meta: ModelMeta,
    configMeta: Option<ModelMeta>,
    tags: seq<string>,
    configTags: Option<Tags>)

  /** The first entry of a legacy metric's `refs`: a v9 ref object or a list of names. */
  datatype MetricRef = V9Ref(name: string) | ListRef(parts: seq<string>)

  datatype MetricFilter = MetricFilter(field: string, operator: string, value: string)

  /**
   * A legacy (dbt metrics) metric. `metrics` holds the referenced metrics as lists whose first
   * element is a name; `hidden`, `groups`, `groupLabel` and `percentile` are from its `meta`.
   */
  datatype DbtMetric = DbtMetric(
    uniqueId: string,
    name: string,
    labelText: Option<string>,
    description: Option<string>,
    calculationMethod: string,
    expression: Option<string>,
    filters: Option<seq<MetricFilter>>,
    metrics: Option<seq<seq<string>>>,
    refs: Option<seq<MetricRef>>,
    hidden: Option<bool>,
    groups: Option<seq<string>>,
    groupLabel: Option<string>,
    percentile: Option<int>)

  /** A node of a lineage graph. */
  datatype LineageNode = LineageNode(name: string, nodeType: string)

  /** Each model of a family, mapped to its direct dependencies. */
  type LineageGraph = Dict<seq<LineageNode>>

  // ---------------------------------------------------------------------------------------
  // lodash `merge`: keys present in the override win; nested objects merge key by key;
  // arrays merge index by index.

  /** A present override value replaces the base value. */
  function Over<T>(base: Option<T>, over: Option<T>): Option<T> {
    if over.Some? then over else base
  }

  /** Two present values are merged, otherwise whichever is present is kept. */
  function MergeOpt<T>(base: Option<T>, over: Option<T>, merge: (T, T) -> T): Option<T> {
    if base.Some? && over.Some? then Some(merge(base.value, over.value)) else Over(base, over)
  }

  /** Arrays merge by index: the override's elements, then the base's longer tail. */
  function MergeList<T>(base: seq<T>, over: seq<T>): (r: seq<T>)
    ensures |r| == if |base| > |over| then |base| else |over|
    ensures r[..|over|] == over
    ensures forall i :: |over| <= i < |base| ==> r[i] == base[i]
  {
    if |base| > |over| then over + base[|over|..] else over
  }

  /** Nested objects merge key by key. */
  function MergeDict<V>(base: Dict<V>, over: Dict<V>, merge: (V, V) -> V): Dict<V>
    decreases |over|
  {
    if |over| == 0 then base
    else
      var (k, v) := over[0];
      var merged := match Get(base, k) case None => v case Some(prev) => merge(prev, v);
      MergeDict(Put(base, k, merged), over[1..], merge)
  }

  function MergeTimeIntervals(base: TimeIntervals, over: TimeIntervals): TimeIntervals {
    if base.Frames? && over.Frames? then Frames(MergeList(base.frames, over.frames)) else over
  }

  function MergeDimensionMeta(base: DimensionMeta, over: DimensionMeta): DimensionMeta {
    DimensionMeta(
      Over(base.typeName, over.typeName),
      Over(base.name, over.name),
      Over(base.sql, over.sql),
      Over(base.labelText, over.labelText),
      Over(base.description, over.description),
      Over(base.hidden, over.hidden),
      MergeOpt(base.groups, over.groups, MergeList),
      Over(base.groupLabel, over.groupLabel),
      MergeOpt(base.timeIntervals, over.timeIntervals, MergeTimeIntervals))
  }

  function MergeMetricSpec(base: MetricSpec, over: MetricSpec): MetricSpec {
    MetricSpec(Spread(base.fields, over.fields))
  }

  function MergeColumnMeta(base: ColumnMeta, over: ColumnMeta): ColumnMeta {
    ColumnMeta(
      MergeOpt(base.dimension, over.dimension, MergeDimensionMeta),
      MergeOpt(base.additionalDimensions, over.additionalDimensions,
        (a, b) => MergeDict(a, b, MergeDimensionMeta)),
      MergeOpt(base.metrics, over.metrics, (a, b) => MergeDict(a, b, MergeMetricSpec)))
  }

  function MergeJoinSpec(base: JoinSpec, over: JoinSpec): JoinSpec {
    JoinSpec(
      Over(base.join, over.join),
      Over(base.sqlOn, over.sqlOn),
      Over(base.joinType, over.joinType),
      Over(base.alias, over.alias),
      Over(base.labelText, over.labelText),
      MergeOpt(base.fields, over.fields, MergeList),
      Over(base.hidden, over.hidden),
      Over(base.always, over.always),
      Over(base.relationship, over.relationship))
  }

  /** Arrays of objects merge by index, each pair of objects key by key. */
  function MergeJoins(base: seq<JoinSpec>, over: seq<JoinSpec>): (r: seq<JoinSpec>)
    ensures |r| == if |base| > |over| then |base| else |over|
    decreases |over|
  {
    if |over| == 0 then base
    else if |base| == 0 then over
    else [MergeJoinSpec(base[0], over[0])] + MergeJoins(base[1..], over[1..])
  }

  function MergeExploreSpec(base: ExploreSpec, over: ExploreSpec): ExploreSpec {
    ExploreSpec(
      Over(base.labelText, over.labelText),
      Over(base.groupLabel, over.groupLabel),
      MergeOpt(base.joins, over.joins, MergeJoins),
      Over(base.description, over.description))
  }

  function MergeGroupSpec(base: GroupSpec, over: GroupSpec): GroupSpec {
    GroupSpec(Over(base.labelText, over.labelText), Over(base.description, over.description))
  }

  function MergePrimaryKey(base: PrimaryKey, over: PrimaryKey): PrimaryKey {
    if base.KeyList? && over.KeyList? then KeyList(MergeList(base.names, over.names)) else over
  }

  function MergeModelMeta(base: ModelMeta, over: ModelMeta): ModelMeta {
    ModelMeta(
      Over(base.labelText, over.labelText),
      Over(base.groupLabel, over.groupLabel),
      Over(base.description, over.description),
      Over(base.sqlFrom, over.sqlFrom),
      Over(base.sqlFilter, over.sqlFilter),
      Over(base.sqlWhere, over.sqlWhere),
      MergeOpt(base.primaryKey, over.primaryKey, MergePrimaryKey),
      MergeOpt(base.metrics, over.metrics, (a, b) => MergeDict(a, b, MergeMetricSpec)),
      MergeOpt(base.explores, over.explores, (a, b) => MergeDict(a, b, MergeExploreSpec)),
      MergeOpt(base.joins, over.joins, MergeJoins),
      MergeOpt(base.groupDetails, over.groupDetails, (a, b) => MergeDict(a, b, MergeGroupSpec)))
  }

  /** `merge({}, column.meta, column.config?.meta)`. */
  function ColumnMetaOf(column: Column): ColumnMeta {
    MergeColumnMeta(column.meta, column.configMeta.GetOr(NoColumnMeta))
  }

  /** `merge({}, model.meta, model.config?.meta)`. */
  function ModelMetaOf(model: Model): ModelMeta {
    MergeModelMeta(model.meta, model.configMeta.GetOr(NoModelMeta))
  }

  /** Without a config block the metadata is the meta block itself. */
  lemma ColumnMetaWithoutConfig(column: Column)
    requires column.configMeta.None?
    ensures ColumnMetaOf(column) == column.meta
  {
  }

  /** A key that the config block sets on a column's dimension wins over the meta block. */
  lemma ConfigDimensionWins(column: Column)
    requires column.configMeta.Some? && column.configMeta.value.dimension.Some?
    ensures var d := ColumnMetaOf(column).dimension.value;
            var c := column.configMeta.value.dimension.value;
            (c.typeName.Some? ==> d.typeName == c.typeName)
            && (c.name.Some? ==> d.name == c.name)
            && (c.sql.Some? ==> d.sql == c.sql)
            && (c.labelText.Some? ==> d.labelText == c.labelText)
            && (c.timeIntervals.Some? && !c.timeIntervals.value.Frames? ==> d.timeIntervals == c.timeIntervals)
  {
  }

  /** Keys of an object merged into another: the base keys, then the override's. */
  lemma {:induction false} MergeDictKeys<V>(base: Dict<V>, over: Dict<V>, merge: (V, V) -> V, k: string)
    ensures k in Keys(MergeDict(base, over, merge)) <==> k in Keys(base) || k in Keys(over)
    decreases |over|
  {
    if |over| > 0 {
      var k0 := over[0].0;
      var merged := match Get(base, k0) case None => over[0].1 case Some(prev) => merge(prev, over[0].1);
      var base' := Put(base, k0, merged);
      assert MergeDict(base, over, merge) == MergeDict(base', over[1..], merge);
      MergeDictKeys(base', over[1..], merge, k);
      PutKeys(base, k0, merged, k);
      KeysCons(over);
    }
  }
}
