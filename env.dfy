/**
 * The collaborators of the compiler whose code is not part of this model, gathered as
 * parameters: the field helpers, the time-frame table, the metric converters of the new format
 * and the explore compiler. Each is a total function; those that can throw return a `Result`.
 */
module Env {
  import opened Wrappers
  import opened Dicts
  import opened Fields
  import opened Errors
  import opened Dbt
  import opened ExploreTypes

  /** What `convertColumnMetric` receives for one metric declared on a column. */
  datatype ColumnMetricInput = ColumnMetricInput(
    modelName: string,
    dimensionName: string,
    dimensionSql: string,
    name: string,
    metric: MetricSpec,
    tableLabel: string)

  /** What `convertModelMetric` receives for one metric declared on a model. */
  datatype ModelMetricInput = ModelMetricInput(
    modelName: string,
    name: string,
    metric: MetricSpec,
    tableLabel: string)

  /**
   * What `compileExplore` receives. `joinedTables` carries each join of the metadata field by
   * field, and `meta` is the model's metadata with the explore's own description when it has one.
   */
  datatype ExploreInput = ExploreInput(
    name: string,
    labelText: string,
    tags: seq<string>,
    baseTable: string,
    groupLabel: Option<string>,
    joinedTables: seq<JoinSpec>,
    tables: Dict<Table>,
    targetDatabase: Adapter,
    meta: ModelMeta)

  datatype Env = Env(
    /** `defaultSql(columnName)`: the SQL that selects a column of the table. */
    defaultSql: string -> string,
    /** `friendlyName(name)`: a label made from an identifier. */
    friendlyName: string -> string,
    /** `convertToGroups(groups, groupLabel)`. */
    convertToGroups: (Option<seq<string>>, Option<string>) -> seq<string>,
    /** `timeFrameConfigs[tf].getSql(adapter, tf, sql, type, startOfWeek)`. */
    timeFrameSql: (Adapter, TimeFrame, string, DimensionType, Option<WeekDay>) -> string,
    /** `timeFrameConfigs[tf].getLabel()`. */
    timeFrameLabel: TimeFrame -> string,
    /** `timeFrameConfigs[tf].getDimensionType(type)`. */
    timeFrameType: (TimeFrame, DimensionType) -> DimensionType,
    /** `getDefaultTimeFrames(type)`. */
    defaultTimeFrames: DimensionType -> seq<TimeFrame>,
    /** `validateTimeFrames(names)`: the names that are time frames. */
    validateTimeFrames: seq<string> -> seq<TimeFrame>,
    /** `parseMetricType(s)`, `None` where it throws. */
    parseMetricType: string -> Option<MetricType>,
    convertColumnMetric: ColumnMetricInput -> Result<Metric, Exception>,
    convertModelMetric: ModelMetricInput -> Result<Metric, Exception>,
    /** `ExploreCompiler.compileExplore`. */
    compileExplore: ExploreInput -> Result<Explore, Exception>,
    /** Whether `MissingCatalogEntryError` is an `instanceof ParseError`. */
    missingIsParse: bool,
    /** How many nested calls of `modelCanUseMetric` the call stack has room for. */
    stackDepth: nat)
}
