/**
 * Dimension conversion: the timezone wrapper, the interval-base test and the conversion of one
 * column (or one column under an explicit time interval) into a dimension.
 */
module Dimensions {
  import opened Wrappers
  import opened JsText
  import opened Fields
  import opened Errors
  import opened Dbt
  import opened Env

  /**
   * `convertTimezone`: the source and target zones are not used yet; only Snowflake wraps the
   * expression, every other adapter returns it as it is.
   */
  function ConvertTimezone(timestampSql: string, sourceTz: string, targetTz: string, adapter: Adapter): (r: string)
    ensures adapter != SNOWFLAKE ==> r == timestampSql
    ensures adapter == SNOWFLAKE ==> r == "TO_TIMESTAMP_NTZ(CONVERT_TIMEZONE('UTC', " + timestampSql + "))"
  {
    match adapter
    case BIGQUERY => timestampSql
    case SNOWFLAKE => "TO_TIMESTAMP_NTZ(CONVERT_TIMEZONE('UTC', " + timestampSql + "))"
    case REDSHIFT => timestampSql
    case POSTGRES => timestampSql
    case DATABRICKS => timestampSql
    case TRINO => timestampSql
  }

  /** JavaScript truthiness of a `time_intervals` value (arrays are always truthy). */
  predicate TruthyIntervals(ti: Option<TimeIntervals>) {
    match ti
    case None => false
    case Some(Flag(b)) => b
    case Some(Named(s)) => s != ""
    case Some(Frames(_)) => true
  }

  /**
   * `isInterval`, written as the source writes it; its contract is the plain reading: a date or
   * timestamp whose `time_intervals` is neither `false` nor `'OFF'`.
   */
  predicate IsInterval(t: DimensionType, dm: DimensionMeta)
    ensures IsInterval(t, dm) <==>
      (t == DATE || t == TIMESTAMP) && dm.timeIntervals != Some(Flag(false)) && dm.timeIntervals != Some(Named("OFF"))
  {
    var ti := dm.timeIntervals;
    && (t == DATE || t == TIMESTAMP)
    && ti != Some(Flag(false))
    && ((TruthyIntervals(ti) && ti != Some(Named("OFF"))) || !TruthyIntervals(ti))
  }

  /** The dimension block after the config overlay; an absent block reads as all keys absent. */
  function DimensionMetaOf(column: Column): DimensionMeta {
    ColumnMetaOf(column).dimension.GetOr(NoDimensionMeta)
  }

  /** `meta.dimension?.type || column.data_type || 'string'`. */
  function DeclaredTypeName(column: Column): string {
    OrElse(OrOpt(DimensionMetaOf(column).typeName, column.dataType), STRING.Name())
  }

  /** The enum values, as `Object.values(DimensionType).join(', ')` lists them. */
  function ValidTypeNames(): string {
    Join(seq(|AllDimensionTypes|, i requires 0 <= i < |AllDimensionTypes| => AllDimensionTypes[i].Name()), ", ")
  }

  function UnknownTypeMessage(typeName: string, columnName: string, modelName: string): string {
    "Could not recognise type \"" + typeName + "\" for dimension \"" + columnName + "\" in dbt model \""
      + modelName + "\". Valid types are: " + ValidTypeNames()
  }

  /**
   * What `convertDimension` returns or throws. A present `timeInterval` turns the dimension into
   * that interval of the base one the same column would give.
   */
  function DimensionFor(
    env: Env, index: int, adapter: Adapter, modelName: string, tableLabel: string, column: Column,
    timeInterval: Option<TimeFrame>, startOfWeek: Option<WeekDay>, isAdditional: bool): Result<Dimension, Exception>
  {
    var dm := DimensionMetaOf(column);
    var typeName := DeclaredTypeName(column);
    match ParseDimensionType(typeName)
    case None => Failure(MissingCatalogEntryError(UnknownTypeMessage(typeName, column.name, modelName)))
    case Some(t) =>
      var baseName := OrElse(dm.name, column.name);
      var rawSql := OrElse(dm.sql, env.defaultSql(column.name));
      var baseSql := if t == TIMESTAMP then ConvertTimezone(rawSql, "UTC", "UTC", adapter) else rawSql;
      var baseLabel := OrElse(dm.labelText, env.friendlyName(baseName));
      var groups := env.convertToGroups(dm.groups, dm.groupLabel);
      var description := OrOpt(dm.description, column.description);
      var hidden := dm.hidden == Some(true);
      match timeInterval
      case None =>
        Success(Dimension(index, baseName, baseLabel, baseSql, modelName, tableLabel, t, description,
          None, None, hidden, isAdditional, groups, IsInterval(t, dm)))
      case Some(tf) =>
        Success(Dimension(index,
          column.name + "_" + Lower(tf),
          baseLabel + " " + Lower(env.timeFrameLabel(tf)),
          env.timeFrameSql(adapter, tf, baseSql, t, startOfWeek),
          modelName, tableLabel,
          env.timeFrameType(tf, t),
          description, Some(tf), Some(baseName), hidden, isAdditional,
          groups + [dm.labelText.GetOr(env.friendlyName(baseName))],
          false))
  }

  /** `convertDimension`, with its reassigned locals, proved to compute `DimensionFor`. */
  method ConvertDimension(
    env: Env, index: int, adapter: Adapter, modelName: string, tableLabel: string, column: Column,
    timeInterval: Option<TimeFrame>, startOfWeek: Option<WeekDay>, isAdditional: bool)
    returns (r: Result<Dimension, Exception>)
    ensures r == DimensionFor(env, index, adapter, modelName, tableLabel, column, timeInterval, startOfWeek, isAdditional)
  {
    var dm := DimensionMetaOf(column);
    var typeName := OrElse(OrOpt(dm.typeName, column.dataType), "string");
    assert typeName == DeclaredTypeName(column);
    var parsed := ParseDimensionType(typeName);
    if parsed.None? {
      return Failure(MissingCatalogEntryError(UnknownTypeMessage(typeName, column.name, modelName)));
    }
    var t := parsed.value;
    var name := OrElse(dm.name, column.name);
    var sql := OrElse(dm.sql, env.defaultSql(column.name));
    var labelText := OrElse(dm.labelText, env.friendlyName(name));
    if t == TIMESTAMP {
      sql := ConvertTimezone(sql, "UTC", "UTC", adapter);
    }
    var isIntervalBase := timeInterval.None? && IsInterval(t, dm);
    var baseDimensionName: Option<string> := None;
    var groups := env.convertToGroups(dm.groups, dm.groupLabel);
    if timeInterval.Some? {
      var tf := timeInterval.value;
      baseDimensionName := Some(name);
      sql := env.timeFrameSql(adapter, tf, sql, t, startOfWeek);
      name := column.name + "_" + Lower(tf);
      labelText := labelText + " " + Lower(env.timeFrameLabel(tf));
      groups := groups + [dm.labelText.GetOr(env.friendlyName(baseDimensionName.value))];
      t := env.timeFrameType(tf, t);
    }
    r := Success(Dimension(index, name, labelText, sql, modelName, tableLabel, t,
      OrOpt(dm.description, column.description), timeInterval, baseDimensionName,
      dm.hidden == Some(true), isAdditional, groups, isIntervalBase));
  }

  /**
   * The type is the declared one, else the catalog's `data_type`, else `string`; a name outside
   * the enum throws `MissingCatalogEntryError` naming the type, the column and the model, listing
   * the valid types, and nothing else throws.
   */
  lemma DimensionTypeResolution(
    env: Env, index: int, adapter: Adapter, modelName: string, tableLabel: string, column: Column,
    timeInterval: Option<TimeFrame>, startOfWeek: Option<WeekDay>, isAdditional: bool)
    ensures var r := DimensionFor(env, index, adapter, modelName, tableLabel, column, timeInterval, startOfWeek, isAdditional);
      var dm := DimensionMetaOf(column);
      var n := if Truthy(dm.typeName) then dm.typeName.value
               else if Truthy(column.dataType) then column.dataType.value else "string";
      && (r.Failure? <==> forall t: DimensionType :: t.Name() != n)
      && (r.Failure? ==> r.error == MissingCatalogEntryError(UnknownTypeMessage(n, column.name, modelName)))
      && (r.Success? && timeInterval.None? ==> r.value.dimensionType.Name() == n)
  {
    DeclaredTypeNameCases(column);
    DimensionForParses(env, index, adapter, modelName, tableLabel, column, timeInterval, startOfWeek, isAdditional);
  }

  /** `DimensionFor` fails exactly when the declared type name does not parse, and keeps the parsed type. */
  lemma DimensionForParses(
    env: Env, index: int, adapter: Adapter, modelName: string, tableLabel: string, column: Column,
    timeInterval: Option<TimeFrame>, startOfWeek: Option<WeekDay>, isAdditional: bool)
    ensures var r := DimensionFor(env, index, adapter, modelName, tableLabel, column, timeInterval, startOfWeek, isAdditional);
      var p := ParseDimensionType(DeclaredTypeName(column));
      && (r.Failure? <==> p.None?)
      && (r.Failure? ==> r.error == MissingCatalogEntryError(UnknownTypeMessage(DeclaredTypeName(column), column.name, modelName)))
      && (r.Success? && timeInterval.None? ==> r.value.dimensionType == p.value)
  {
  }

  lemma DeclaredTypeNameCases(column: Column)
    ensures var dm := DimensionMetaOf(column);
      DeclaredTypeName(column) ==
        if Truthy(dm.typeName) then dm.typeName.value
        else if Truthy(column.dataType) then column.dataType.value else "string"
  {
  }

  /**
   * A base timestamp dimension's SQL is the declared (or default) SQL, wrapped only on Snowflake;
   * other types keep it as it is.
   */
  lemma BaseSqlTimezone(
    env: Env, index: int, adapter: Adapter, modelName: string, tableLabel: string, column: Column,
    startOfWeek: Option<WeekDay>, isAdditional: bool)
    requires DimensionFor(env, index, adapter, modelName, tableLabel, column, None, startOfWeek, isAdditional).Success?
    ensures var d := DimensionFor(env, index, adapter, modelName, tableLabel, column, None, startOfWeek, isAdditional).value;
      var raw := OrElse(DimensionMetaOf(column).sql, env.defaultSql(column.name));
      && (d.dimensionType != TIMESTAMP || adapter != SNOWFLAKE ==> d.sql == raw)
      && (d.dimensionType == TIMESTAMP && adapter == SNOWFLAKE ==>
            d.sql == "TO_TIMESTAMP_NTZ(CONVERT_TIMEZONE('UTC', " + raw + "))")
  {
  }

  /**
   * Converting with an explicit interval gives the base conversion rewritten for it: the name is
   * the column name and the lower-cased interval, the label gains the interval's lower-cased
   * label, the base name is kept as a back-reference, the base label (or the friendly base name)
   * is pushed onto the groups, the type becomes the interval's output type, the SQL is the
   * interval's SQL over the base SQL, and the result is never an interval base.
   */
  lemma IntervalOfBase(
    env: Env, index: int, adapter: Adapter, modelName: string, tableLabel: string, column: Column,
    tf: TimeFrame, startOfWeek: Option<WeekDay>, isAdditional: bool)
    ensures var b := DimensionFor(env, index, adapter, modelName, tableLabel, column, None, startOfWeek, isAdditional);
      var r := DimensionFor(env, index, adapter, modelName, tableLabel, column, Some(tf), startOfWeek, isAdditional);
      var dm := DimensionMetaOf(column);
      && (r.Success? <==> b.Success?)
      && (r.Failure? ==> r == b)
      && (r.Success? ==>
            && r.value.name == column.name + "_" + Lower(tf)
            && r.value.labelText == b.value.labelText + " " + Lower(env.timeFrameLabel(tf))
            && r.value.timeIntervalBaseDimensionName == Some(b.value.name)
            && r.value.timeInterval == Some(tf)
            && r.value.groups == b.value.groups + [if dm.labelText.Some? then dm.labelText.value else env.friendlyName(b.value.name)]
            && r.value.dimensionType == env.timeFrameType(tf, b.value.dimensionType)
            && r.value.sql == env.timeFrameSql(adapter, tf, b.value.sql, b.value.dimensionType, startOfWeek)
            && !r.value.isIntervalBase
            && r.value.description == b.value.description
            && r.value.hidden == b.value.hidden)
  {
  }

  /** A dimension without an explicit interval is an interval base exactly when `isInterval` holds. */
  lemma BaseIsIntervalBase(
    env: Env, index: int, adapter: Adapter, modelName: string, tableLabel: string, column: Column,
    startOfWeek: Option<WeekDay>, isAdditional: bool)
    requires DimensionFor(env, index, adapter, modelName, tableLabel, column, None, startOfWeek, isAdditional).Success?
    ensures var d := DimensionFor(env, index, adapter, modelName, tableLabel, column, None, startOfWeek, isAdditional).value;
      && (d.isIntervalBase <==> IsInterval(d.dimensionType, DimensionMetaOf(column)))
      && d.timeInterval.None? && d.timeIntervalBaseDimensionName.None?
      && d.name == OrElse(DimensionMetaOf(column).name, column.name)
  {
  }
}
