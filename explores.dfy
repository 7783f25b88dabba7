/**
 * `convertExplores`: the batch driver that turns every model into a table (or an explore
 * error), attaches each table's lineage, and compiles the model's base explore and its
 * additional explores against the tables that converted.
 */
module Explores {
  import opened Wrappers
  import opened JsText
  import opened Dicts
  import opened Errors
  import opened Dbt
  import opened ExploreTypes
  import opened Env
  import LegacyMetrics
  import Tables
  import Lineage

  // ---------------------------------------------------------------------------------------
  // What every stage shares.

  /** `model.config.tags` as a list: a single tag becomes a list of one. */
  function ConfigTags(model: Model): Option<seq<string>> {
    match model.configTags
    case None => None
    case Some(TagName(t)) => Some([t])
    case Some(TagList(ts)) => Some(ts)
  }

  /** The config tags when there are any, otherwise the model's own tags. */
  function TagsOf(model: Model): seq<string> {
    var c := ConfigTags(model);
    if c.Some? && |c.value| > 0 then c.value else model.tags
  }

  /** The config block's tags win unless they are absent or an empty list. */
  lemma TagPrecedence(model: Model)
    ensures model.configTags.Some? && model.configTags.value.TagName? ==> TagsOf(model) == [model.configTags.value.tag]
    ensures model.configTags.Some? && model.configTags.value.TagList? && |model.configTags.value.tags| > 0
      ==> TagsOf(model) == model.configTags.value.tags
    ensures model.configTags.None? || model.configTags.value == TagList([]) ==> TagsOf(model) == model.tags
  {
  }

  /**
   * The inline error for a thrown value: a `ParseError` (and a `MissingCatalogEntryError`
   * where that class extends it) is a metadata parse error, anything else means no
   * dimensions were found; an `Error` gives its message, any other value the fallback.
   */
  function ErrorFor(env: Env, e: Exception, fallback: string): (r: InlineError)
    ensures r.errorType == METADATA_PARSE_ERROR <==> e.ParseError? || (e.MissingCatalogEntryError? && env.missingIsParse)
    ensures r.message == if e.NonErrorValue? then fallback else e.message
  {
    var t := if e.ParseError? || (e.MissingCatalogEntryError? && env.missingIsParse) then METADATA_PARSE_ERROR
      else NO_DIMENSIONS_FOUND;
    InlineError(t, if e.NonErrorValue? then fallback else e.message)
  }

  // ---------------------------------------------------------------------------------------
  // Tables.

  /** `metrics.filter(m => modelCanUseMetric(m.name, model.name, metrics))`; a throw stops it. */
  function UsableMetrics(env: Env, modelName: string, metrics: seq<DbtMetric>, candidates: seq<DbtMetric>): Result<seq<DbtMetric>, Exception>
    decreases |candidates|
  {
    if |candidates| == 0 then Success([])
    else
      var keep :- LegacyMetrics.CanUseMetric(env.stackDepth, Some(candidates[0].name), modelName, metrics);
      var rest :- UsableMetrics(env, modelName, metrics, candidates[1..]);
      Success(if keep then [candidates[0]] + rest else rest)
  }

  /** The converted table with the model's lineage attached, or what the conversion threw. */
  function TableFor(env: Env, adapter: Adapter, model: Model, metrics: seq<DbtMetric>, startOfWeek: Option<Fields.WeekDay>, lineage: Dict<LineageGraph>): Result<Table, Exception> {
    var tableMetrics :- UsableMetrics(env, model.name, metrics, metrics);
    var table :- Tables.ConvertTable(env, adapter, model, tableMetrics, startOfWeek);
    match Get(lineage, model.name)
    case None => Success(table)
    case Some(l) => Success(table.(lineageGraph := Some(l)))
  }

  /** What every explore and explore error of a model shares: its name, merged metadata and tags. */
  datatype ModelInfo = ModelInfo(name: string, meta: ModelMeta, tags: seq<string>)

  function InfoOf(model: Model): ModelInfo {
    ModelInfo(model.name, ModelMetaOf(model), TagsOf(model))
  }

  function ModelFallback(name: string): string {
    "Could not convert dbt model: \"" + name + "\" in to a Lightdash explore"
  }

  /** The explore error for a model whose table could not be converted. */
  function ModelError(env: Env, info: ModelInfo, e: Exception): ExploreError {
    ExploreError(info.name, OrElse(info.meta.labelText, env.friendlyName(info.name)), info.meta.groupLabel,
      Some(info.tags), [ErrorFor(env, e, ModelFallback(info.name))])
  }

  /** What converting each model gives, in model order. */
  function TableResults(env: Env, adapter: Adapter, models: seq<Model>, metrics: seq<DbtMetric>, startOfWeek: Option<Fields.WeekDay>, lineage: Dict<LineageGraph>): (r: seq<Result<Table, Exception>>)
    ensures |r| == |models|
    ensures forall i :: 0 <= i < |models| ==> r[i] == TableFor(env, adapter, models[i], metrics, startOfWeek, lineage)
  {
    seq(|models|, i requires 0 <= i < |models| => TableFor(env, adapter, models[i], metrics, startOfWeek, lineage))
  }

  /** The reduce that sorts the conversions into tables and failed models with what they threw. */
  function Partition(models: seq<Model>, results: seq<Result<Table, Exception>>): (seq<Table>, seq<(Model, Exception)>)
    requires |results| == |models|
    decreases |models|
  {
    if |models| == 0 then ([], [])
    else
      var n := |models| - 1;
      var (tables, failed) := Partition(models[..n], results[..n]);
      match results[n]
      case Success(t) => (tables + [t], failed)
      case Failure(e) => (tables, failed + [(models[n], e)])
  }

  function ModelErrors(env: Env, failed: seq<(Model, Exception)>): (r: seq<ExploreError>)
    ensures |r| == |failed|
    ensures forall i :: 0 <= i < |failed| ==> r[i] == ModelError(env, InfoOf(failed[i].0), failed[i].1)
  {
    seq(|failed|, i requires 0 <= i < |failed| => ModelError(env, InfoOf(failed[i].0), failed[i].1))
  }

  /** The first reduce: the tables that converted and the errors of those that did not, in model order. */
  function TablesStage(env: Env, adapter: Adapter, models: seq<Model>, metrics: seq<DbtMetric>, startOfWeek: Option<Fields.WeekDay>, lineage: Dict<LineageGraph>): (seq<Table>, seq<ExploreError>) {
    var (tables, failed) := Partition(models, TableResults(env, adapter, models, metrics, startOfWeek, lineage));
    (tables, ModelErrors(env, failed))
  }

  function TableNames(tables: seq<Table>): (r: seq<string>)
    ensures |r| == |tables|
    ensures forall i :: 0 <= i < |tables| ==> r[i] == tables[i].name
  {
    seq(|tables|, i requires 0 <= i < |tables| => tables[i].name)
  }

  /** `tableLookup`: each table under its name, a later table replacing an earlier one. */
  function TableLookup(tables: seq<Table>): Dict<Table> {
    Assign(TableNames(tables), tables)
  }

  /** The models whose name has a table. */
  function ValidModels(models: seq<Model>, lookup: Dict<Table>): (r: seq<Model>)
    ensures forall m :: m in r <==> m in models && m.name in Keys(lookup)
    ensures |r| <= |models|
  {
    if |models| == 0 then []
    else if models[0].name in Keys(lookup) then [models[0]] + ValidModels(models[1..], lookup)
    else ValidModels(models[1..], lookup)
  }

  /** The test `ValidModels` applies: the lookup holds the model's name. */
  function HasTable(lookup: Dict<Table>): Model -> bool {
    (m: Model) => m.name in Keys(lookup)
  }

  /** The valid models are `Filter` of the models by `HasTable`: each kept model where it stood, with its multiplicity. */
  lemma {:induction false} ValidModelsInOrder(models: seq<Model>, lookup: Dict<Table>)
    ensures ValidModels(models, lookup) == Filter(models, HasTable(lookup))
    decreases |models|
  {
    if |models| > 0 {
      ValidModelsInOrder(models[1..], lookup);
    }
  }

  // ---------------------------------------------------------------------------------------
  // Explores.

  /** One entry of `exploresToCreate`. */
  datatype ExploreToCreate = ExploreToCreate(
    name: string,
    labelText: string,
    groupLabel: Option<string>,
    joins: seq<JoinSpec>,
    description: Option<string>)

  function AdditionalExplore(env: Env, meta: ModelMeta, name: string, spec: ExploreSpec): ExploreToCreate {
    ExploreToCreate(name, OrElse(spec.labelText, env.friendlyName(name)), OrOpt(spec.groupLabel, meta.groupLabel),
      spec.joins.GetOr([]), spec.description)
  }

  /** The base explore, then one per entry of the metadata's `explores`, in entry order. */
  function ExploresToCreate(env: Env, info: ModelInfo): (r: seq<ExploreToCreate>)
    ensures |r| == 1 + |info.meta.explores.GetOr([])|
  {
    var extra := info.meta.explores.GetOr([]);
    [ExploreToCreate(info.name, OrElse(info.meta.labelText, env.friendlyName(info.name)), info.meta.groupLabel,
      info.meta.joins.GetOr([]), info.meta.description)]
    + seq(|extra|, i requires 0 <= i < |extra| => AdditionalExplore(env, info.meta, extra[i].0, extra[i].1))
  }

  /** What `compileExplore` receives for one explore of a model. */
  function CompileInput(info: ModelInfo, lookup: Dict<Table>, adapter: Adapter, x: ExploreToCreate): ExploreInput {
    ExploreInput(x.name, x.labelText, info.tags, info.name, x.groupLabel, x.joins, lookup, adapter,
      if x.description.Some? then info.meta.(description := x.description) else info.meta)
  }

  /**
   * The message for a thrown value that is not an `Error`. Both conditional parts of the
   * template test whether the explore is the model's own, so each case is one message.
   */
  function ExploreFallback(name: string, modelName: string): string {
    if name == modelName then "Could not convert dbt model: \"" + name + "\" is not a valid model"
    else "Could not convert additional explore: \"" + name + "\" from model \"" + modelName + "\""
  }

  /** The compiled explore, or an explore error without tags. */
  function CompileOne(env: Env, info: ModelInfo, lookup: Dict<Table>, adapter: Adapter, x: ExploreToCreate): ExploreOrError {
    match env.compileExplore(CompileInput(info, lookup, adapter, x))
    case Success(e) => Compiled(e)
    case Failure(err) => Errored(ExploreError(x.name, x.labelText, x.groupLabel, None, [ErrorFor(env, err, ExploreFallback(x.name, info.name))]))
  }

  function NewExplores(env: Env, info: ModelInfo, lookup: Dict<Table>, adapter: Adapter): (r: seq<ExploreOrError>)
    ensures |r| == |ExploresToCreate(env, info)|
    ensures forall i :: 0 <= i < |r| ==> r[i] == CompileOne(env, info, lookup, adapter, ExploresToCreate(env, info)[i])
  {
    var xs := ExploresToCreate(env, info);
    seq(|xs|, i requires 0 <= i < |xs| => CompileOne(env, info, lookup, adapter, xs[i]))
  }

  /** The second reduce: every valid model's explores, in model order. */
  function ExploresStage(env: Env, models: seq<Model>, lookup: Dict<Table>, adapter: Adapter): seq<ExploreOrError>
    decreases |models|
  {
    if |models| == 0 then []
    else NewExplores(env, InfoOf(models[0]), lookup, adapter) + ExploresStage(env, models[1..], lookup, adapter)
  }

  /** How many explores the given models ask for: each its base explore plus its additional ones. */
  function ExploreCount(models: seq<Model>): nat
    decreases |models|
  {
    if |models| == 0 then 0
    else 1 + |ModelMetaOf(models[0]).explores.GetOr([])| + ExploreCount(models[1..])
  }

  function AsEntries(errors: seq<ExploreError>): (r: seq<ExploreOrError>)
    ensures |r| == |errors|
    ensures forall i :: 0 <= i < |errors| ==> r[i] == Errored(errors[i])
  {
    seq(|errors|, i requires 0 <= i < |errors| => Errored(errors[i]))
  }

  /** `convertExplores`: the explores and explore errors of the valid models, then the table errors. */
  function ConvertExplores(env: Env, g: Lineage.DepGraph, models: seq<Model>, adapter: Adapter, metrics: seq<DbtMetric>, startOfWeek: Option<Fields.WeekDay>): seq<ExploreOrError>
    requires Lineage.Closed(g) && forall i :: 0 <= i < |models| ==> models[i].uniqueId in g.direct
  {
    var (tables, errors) := TablesStage(env, adapter, models, metrics, startOfWeek, Lineage.ModelsLineage(g, models));
    Assemble(env, models, tables, errors, adapter)
  }

  /** The explores of the models that have a table among `tables`, then the table errors. */
  function Assemble(env: Env, models: seq<Model>, tables: seq<Table>, errors: seq<ExploreError>, adapter: Adapter): seq<ExploreOrError> {
    var lookup := TableLookup(tables);
    ExploresStage(env, ValidModels(models, lookup), lookup, adapter) + AsEntries(errors)
  }

  // ---------------------------------------------------------------------------------------
  // Properties.

  /**
   * The filter keeps exactly the candidates that are usable, in order; should any candidate
   * overflow the call stack instead, the conversion fails with that `RangeError`.
   */
  lemma {:induction false} UsableMetricsFilter(env: Env, modelName: string, metrics: seq<DbtMetric>, candidates: seq<DbtMetric>)
    ensures var r := UsableMetrics(env, modelName, metrics, candidates);
      && (r.Success? <==> forall i :: 0 <= i < |candidates| ==>
            LegacyMetrics.CanUseMetric(env.stackDepth, Some(candidates[i].name), modelName, metrics).Success?)
      && (r.Success? ==> forall m :: m in r.value <==> (m in candidates &&
            LegacyMetrics.CanUseMetric(env.stackDepth, Some(m.name), modelName, metrics) == Success(true)))
      && (r.Failure? ==> r.error == PlainError(StackOverflowMessage))
    decreases |candidates|
  {
    if |candidates| > 0 {
      var c := candidates[0];
      LegacyMetrics.CanUseFailure(env.stackDepth, Some(c.name), modelName, metrics);
      UsableMetricsFilter(env, modelName, metrics, candidates[1..]);
      assert forall i :: 1 <= i < |candidates| ==> candidates[i] == candidates[1..][i - 1];
      assert candidates == [c] + candidates[1..];
    }
  }

  /** The test the filter applies to a candidate: usable without a throw. */
  function UsableTest(env: Env, modelName: string, metrics: seq<DbtMetric>): DbtMetric -> bool {
    (m: DbtMetric) => LegacyMetrics.CanUseMetric(env.stackDepth, Some(m.name), modelName, metrics) == Success(true)
  }

  /** When no candidate throws, the usable metrics are the candidates that pass the test, in their order. */
  lemma {:induction false} UsableMetricsInOrder(env: Env, modelName: string, metrics: seq<DbtMetric>, candidates: seq<DbtMetric>)
    requires UsableMetrics(env, modelName, metrics, candidates).Success?
    ensures UsableMetrics(env, modelName, metrics, candidates).value == Filter(candidates, UsableTest(env, modelName, metrics))
    decreases |candidates|
  {
    if |candidates| > 0 {
      UsableMetricsInOrder(env, modelName, metrics, candidates[1..]);
    }
  }

  /** Legacy metrics whose references have no cycle, checked with a deep enough stack, never make the filter throw. */
  lemma UsableMetricsSucceed(env: Env, modelName: string, metrics: seq<DbtMetric>, candidates: seq<DbtMetric>, rank: Option<string> -> nat)
    requires LegacyMetrics.RanksReferences(rank, modelName, metrics)
    requires forall i :: 0 <= i < |candidates| ==> env.stackDepth > rank(Some(candidates[i].name))
    ensures UsableMetrics(env, modelName, metrics, candidates).Success?
  {
    forall i | 0 <= i < |candidates|
      ensures LegacyMetrics.CanUseMetric(env.stackDepth, Some(candidates[i].name), modelName, metrics).Success?
    {
      LegacyMetrics.CanUseTerminates(env.stackDepth, rank, Some(candidates[i].name), modelName, metrics);
    }
    UsableMetricsFilter(env, modelName, metrics, candidates);
  }

  /** A converted table keeps the model's name and carries the lineage found under that name. */
  lemma TableForNamesModel(env: Env, adapter: Adapter, model: Model, metrics: seq<DbtMetric>, startOfWeek: Option<Fields.WeekDay>, lineage: Dict<LineageGraph>)
    requires TableFor(env, adapter, model, metrics, startOfWeek, lineage).Success?
    ensures var t := TableFor(env, adapter, model, metrics, startOfWeek, lineage).value;
      t.name == model.name && t.lineageGraph == Get(lineage, model.name)
  {
  }

  /**
   * Each model gives exactly one table or one failure: the tables are the successful
   * conversions and the failures the models that threw, with what they threw, each in model order.
   */
  lemma {:induction false} PartitionSplits(models: seq<Model>, results: seq<Result<Table, Exception>>)
    requires |results| == |models|
    ensures |Partition(models, results).0| + |Partition(models, results).1| == |models|
    ensures forall t :: t in Partition(models, results).0 <==> exists i :: 0 <= i < |models| && results[i] == Success(t)
    ensures forall m, e :: (m, e) in Partition(models, results).1 <==> exists i :: 0 <= i < |models| && models[i] == m && results[i] == Failure(e)
    decreases |models|
  {
    if |models| > 0 {
      var n := |models| - 1;
      PartitionSplits(models[..n], results[..n]);
      assert forall i :: 0 <= i < n ==> models[..n][i] == models[i] && results[..n][i] == results[i];
    }
  }

  /** The tables of the successful conversions, in model order. */
  function Successes(results: seq<Result<Table, Exception>>): seq<Table>
    decreases |results|
  {
    if |results| == 0 then []
    else (if results[0].Success? then [results[0].value] else []) + Successes(results[1..])
  }

  /** The models whose conversion threw, with what they threw, in model order. */
  function Failures(models: seq<Model>, results: seq<Result<Table, Exception>>): seq<(Model, Exception)>
    requires |results| == |models|
    decreases |models|
  {
    if |models| == 0 then []
    else (if results[0].Failure? then [(models[0], results[0].error)] else []) + Failures(models[1..], results[1..])
  }

  /** The reduce sorts the conversions without reordering them: the successes and the failures, each in model order. */
  lemma {:induction false} PartitionInOrder(models: seq<Model>, results: seq<Result<Table, Exception>>)
    requires |results| == |models|
    ensures Partition(models, results) == (Successes(results), Failures(models, results))
    decreases |models|
  {
    if |models| > 0 {
      var n := |models| - 1;
      var ms, rs := models[..n], results[..n];
      PartitionInOrder(ms, rs);
      var prev := Partition(ms, rs);
      assert ms + [models[n]] == models && rs + [results[n]] == results;
      SuccessesSnoc(rs, results[n]);
      FailuresSnoc(ms, rs, models[n], results[n]);
      if results[n].Success? {
        assert Partition(models, results) == (prev.0 + [results[n].value], prev.1);
        assert Successes(results) == Successes(rs) + [results[n].value];
        assert Failures(models, results) == Failures(ms, rs) + [];
        assert Failures(ms, rs) + [] == Failures(ms, rs);
      } else {
        assert Partition(models, results) == (prev.0, prev.1 + [(models[n], results[n].error)]);
        assert Successes(results) == Successes(rs) + [];
        assert Successes(rs) + [] == Successes(rs);
        assert Failures(models, results) == Failures(ms, rs) + [(models[n], results[n].error)];
      }
    }
  }

  lemma {:induction false} SuccessesSnoc(results: seq<Result<Table, Exception>>, x: Result<Table, Exception>)
    ensures Successes(results + [x]) == Successes(results) + (if x.Success? then [x.value] else [])
    decreases |results|
  {
    if |results| > 0 {
      assert (results + [x])[1..] == results[1..] + [x];
      SuccessesSnoc(results[1..], x);
    } else {
      assert ([] + [x])[1..] == [];
    }
  }

  lemma {:induction false} FailuresSnoc(models: seq<Model>, results: seq<Result<Table, Exception>>, m: Model, x: Result<Table, Exception>)
    requires |results| == |models|
    ensures Failures(models + [m], results + [x]) == Failures(models, results) + (if x.Failure? then [(m, x.error)] else [])
    decreases |models|
  {
    if |models| > 0 {
      assert (models + [m])[1..] == models[1..] + [m];
      assert (results + [x])[1..] == results[1..] + [x];
      FailuresSnoc(models[1..], results[1..], m, x);
    } else {
      assert ([] + [m])[1..] == [] && ([] + [x])[1..] == [];
    }
  }

  /** The lookup holds a table under a name exactly when one of the tables has it; the last such wins. */
  lemma TableLookupFinds(tables: seq<Table>, k: string)
    ensures k in Keys(TableLookup(tables)) <==> exists i :: 0 <= i < |tables| && tables[i].name == k
    ensures k in Keys(TableLookup(tables)) ==> exists i :: (0 <= i < |tables| && tables[i].name == k
      && (forall j :: i < j < |tables| ==> tables[j].name != k) && Get(TableLookup(tables), k) == Some(tables[i]))
  {
    var names := TableNames(tables);
    AssignKeys(names, tables, k);
    if k in names {
      var i :| 0 <= i < |tables| && names[i] == k;
      while exists j :: i < j < |tables| && tables[j].name == k
        invariant 0 <= i < |tables| && tables[i].name == k
        decreases |tables| - i
      {
        var j :| i < j < |tables| && tables[j].name == k;
        i := j;
      }
      AssignLast(names, tables, i);
    }
  }

  /** A model is valid exactly when some model of its name converted to a table of that name. */
  lemma ValidModelsConverted(models: seq<Model>, results: seq<Result<Table, Exception>>, m: Model)
    requires |results| == |models|
    ensures m in ValidModels(models, TableLookup(Partition(models, results).0)) <==>
      (m in models && exists i :: 0 <= i < |models| && results[i].Success? && results[i].value.name == m.name)
  {
    var tables := Partition(models, results).0;
    var names := TableNames(tables);
    AssignKeys(names, tables, m.name);
    assert m in ValidModels(models, TableLookup(tables)) <==> m in models && m.name in names;
    if m.name in names {
      var i :| 0 <= i < |tables| && names[i] == m.name;
      PartitionSource(models, results, i);
    }
    if exists i :: 0 <= i < |models| && results[i].Success? && results[i].value.name == m.name {
      var i :| 0 <= i < |models| && results[i].Success? && results[i].value.name == m.name;
      PartitionKeeps(models, results, i);
      var j :| 0 <= j < |tables| && tables[j] == results[i].value;
      assert names[j] == m.name;
    }
  }

  /** Every converted table comes from a successful result. */
  lemma PartitionSource(models: seq<Model>, results: seq<Result<Table, Exception>>, j: nat)
    requires |results| == |models| && j < |Partition(models, results).0|
    ensures exists k :: 0 <= k < |models| && results[k] == Success(Partition(models, results).0[j])
  {
    PartitionSplits(models, results);
    assert Partition(models, results).0[j] in Partition(models, results).0;
  }

  /** Every successful result is among the converted tables. */
  lemma PartitionKeeps(models: seq<Model>, results: seq<Result<Table, Exception>>, k: nat)
    requires |results| == |models| && k < |models| && results[k].Success?
    ensures exists j :: 0 <= j < |Partition(models, results).0| && Partition(models, results).0[j] == results[k].value
  {
    PartitionSplits(models, results);
    assert results[k] == Success(results[k].value);
    assert results[k].value in Partition(models, results).0;
  }

  /** Every model asks for its base explore and one per additional explore, and gets an entry for each. */
  lemma {:induction false} ExploresStageCount(env: Env, models: seq<Model>, lookup: Dict<Table>, adapter: Adapter)
    ensures |ExploresStage(env, models, lookup, adapter)| == ExploreCount(models)
    decreases |models|
  {
    if |models| > 0 {
      ExploresStageCount(env, models[1..], lookup, adapter);
    }
  }

  /**
   * A model's first entry is its base explore: compiled from its own name, label and metadata
   * against its own table, or an explore error of that name and label that carries no tags.
   */
  lemma BaseExplore(env: Env, info: ModelInfo, lookup: Dict<Table>, adapter: Adapter)
    requires info.name in Keys(lookup)
    ensures var title := OrElse(info.meta.labelText, env.friendlyName(info.name));
      var r := NewExplores(env, info, lookup, adapter)[0];
      var input := ExploreInput(info.name, title, info.tags, info.name, info.meta.groupLabel, info.meta.joins.GetOr([]), lookup, adapter, info.meta);
      && input.baseTable in Keys(input.tables)
      && (env.compileExplore(input).Success? ==> r == Compiled(env.compileExplore(input).value))
      && (env.compileExplore(input).Failure? ==>
            (&& r.Errored? && r.error.name == info.name && r.error.labelText == title && r.error.tags.None?
             && r.error.errors == [ErrorFor(env, env.compileExplore(input).error,
                  "Could not convert dbt model: \"" + info.name + "\" is not a valid model")]))
  {
    var x := ExploresToCreate(env, info)[0];
    assert x.description == info.meta.description;
    assert info.meta.(description := info.meta.description) == info.meta;
  }

  /**
   * Each additional explore takes its name and label from its entry, falls back to the model's
   * group label, and is compiled against the same tables with the model as its base table and
   * its own description, when it has one, in the metadata.
   */
  lemma AdditionalExplores(env: Env, info: ModelInfo, lookup: Dict<Table>, adapter: Adapter, i: nat)
    requires info.name in Keys(lookup)
    requires i < |info.meta.explores.GetOr([])|
    ensures var name := info.meta.explores.value[i].0;
      var spec := info.meta.explores.value[i].1;
      var x := ExploresToCreate(env, info)[i + 1];
      var input := CompileInput(info, lookup, adapter, x);
      && x.name == name
      && x.labelText == OrElse(spec.labelText, env.friendlyName(name))
      && x.groupLabel == OrOpt(spec.groupLabel, info.meta.groupLabel)
      && input.baseTable == info.name && input.baseTable in Keys(input.tables)
      && input.meta.description == Over(info.meta.description, spec.description)
  {
    var extra := info.meta.explores.value;
    assert ExploresToCreate(env, info)[i + 1] == AdditionalExplore(env, info.meta, extra[i].0, extra[i].1);
  }

  /** An additional explore that fails with a non-`Error` value is reported with the model it comes from. */
  lemma AdditionalExploreFallback(env: Env, info: ModelInfo, lookup: Dict<Table>, adapter: Adapter, i: nat)
    requires i < |info.meta.explores.GetOr([])|
    requires info.meta.explores.value[i].0 != info.name
    requires env.compileExplore(CompileInput(info, lookup, adapter, ExploresToCreate(env, info)[i + 1])) == Failure(NonErrorValue)
    ensures var name := info.meta.explores.value[i].0;
      var r := NewExplores(env, info, lookup, adapter)[i + 1];
      && r.Errored? && r.error.name == name && r.error.tags.None?
      && r.error.errors == [InlineError(NO_DIMENSIONS_FOUND,
           "Could not convert additional explore: \"" + name + "\" from model \"" + info.name + "\"")]
  {
    var extra := info.meta.explores.value;
    assert ExploresToCreate(env, info)[i + 1].name == extra[i].0;
  }

  /**
   * The output lists one entry per explore the valid models ask for, then one explore error per
   * model that did not convert, in model order: the error at position `i` among them sits at
   * position `ExploreCount(valid) + i` of the output.
   */
  lemma AssembleLayout(env: Env, models: seq<Model>, tables: seq<Table>, errors: seq<ExploreError>, adapter: Adapter, i: nat)
    ensures var valid := ValidModels(models, TableLookup(tables));
      var r := Assemble(env, models, tables, errors, adapter);
      && |r| == ExploreCount(valid) + |errors|
      && (i < |errors| ==> r[ExploreCount(valid) + i] == Errored(errors[i]))
  {
    AssembledLength(env, models, tables, errors, adapter);
    if i < |errors| {
      AssembledErrorAt(env, models, tables, errors, adapter, i);
    }
  }

  lemma AssembledLength(env: Env, models: seq<Model>, tables: seq<Table>, errors: seq<ExploreError>, adapter: Adapter)
    ensures |Assemble(env, models, tables, errors, adapter)| == ExploreCount(ValidModels(models, TableLookup(tables))) + |errors|
  {
    var lookup := TableLookup(tables);
    ExploresStageCount(env, ValidModels(models, lookup), lookup, adapter);
  }

  lemma AssembledErrorAt(env: Env, models: seq<Model>, tables: seq<Table>, errors: seq<ExploreError>, adapter: Adapter, i: nat)
    requires i < |errors|
    ensures var valid := ValidModels(models, TableLookup(tables));
      var r := Assemble(env, models, tables, errors, adapter);
      ExploreCount(valid) + i < |r| && r[ExploreCount(valid) + i] == Errored(errors[i])
  {
    var lookup := TableLookup(tables);
    var valid := ValidModels(models, lookup);
    var prefix := ExploresStage(env, valid, lookup, adapter);
    ExploresStageCount(env, valid, lookup, adapter);
    EntriesAfter(prefix, errors, ExploreCount(valid));
  }

  /** Explore errors appended after `n` entries sit at positions `n` onwards. */
  lemma EntriesAfter(prefix: seq<ExploreOrError>, errors: seq<ExploreError>, n: nat)
    requires |prefix| == n
    ensures var r := prefix + AsEntries(errors);
      |r| == n + |errors| && forall i :: 0 <= i < |errors| ==> r[n + i] == Errored(errors[i])
  {
    var r := prefix + AsEntries(errors);
    forall i | 0 <= i < |errors| ensures r[n + i] == Errored(errors[i]) {
      assert r[n + i] == AsEntries(errors)[i];
    }
  }

  /** Each model that does not convert gives one explore error, so there are at most as many as models. */
  lemma TablesStageCount(env: Env, adapter: Adapter, models: seq<Model>, metrics: seq<DbtMetric>, startOfWeek: Option<Fields.WeekDay>, lineage: Dict<LineageGraph>)
    ensures |TablesStage(env, adapter, models, metrics, startOfWeek, lineage).0| + |TablesStage(env, adapter, models, metrics, startOfWeek, lineage).1| == |models|
  {
    PartitionSplits(models, TableResults(env, adapter, models, metrics, startOfWeek, lineage));
  }

  /**
   * An explore error reports a model that threw `e`: it carries the model's name, label, group
   * label and tags, and one inline error, a metadata parse error exactly when `e` is a
   * `ParseError`, with `e`'s message or the fallback naming the model.
   */
  ghost predicate Reports(env: Env, x: ExploreError, model: Model, e: Exception) {
    var meta := ModelMetaOf(model);
    && x.name == model.name
    && x.labelText == OrElse(meta.labelText, env.friendlyName(model.name))
    && x.groupLabel == meta.groupLabel
    && x.tags == Some(TagsOf(model))
    && |x.errors| == 1
    && (x.errors[0].errorType == METADATA_PARSE_ERROR <==> e.ParseError? || (e.MissingCatalogEntryError? && env.missingIsParse))
    && x.errors[0].message == (if e.NonErrorValue? then ModelFallback(model.name) else e.message)
  }

  /** Every model whose conversion throws is reported among the table errors. */
  lemma FailedModelReported(env: Env, adapter: Adapter, models: seq<Model>, metrics: seq<DbtMetric>, startOfWeek: Option<Fields.WeekDay>, lineage: Dict<LineageGraph>, i: nat)
    requires i < |models|
    requires TableFor(env, adapter, models[i], metrics, startOfWeek, lineage).Failure?
    ensures var errors := TablesStage(env, adapter, models, metrics, startOfWeek, lineage).1;
      exists j :: 0 <= j < |errors| && Reports(env, errors[j], models[i], TableFor(env, adapter, models[i], metrics, startOfWeek, lineage).error)
  {
    var results := TableResults(env, adapter, models, metrics, startOfWeek, lineage);
    var failed := Partition(models, results).1;
    var e := results[i].error;
    PartitionSplits(models, results);
    assert results[i] == Failure(e);
    assert (models[i], e) in failed;
    var j :| 0 <= j < |failed| && failed[j] == (models[i], e);
    var errors := ModelErrors(env, failed);
    assert errors[j] == ModelError(env, InfoOf(models[i]), e);
    assert Reports(env, errors[j], models[i], e);
  }

  /** Every table error reports a model whose conversion threw. */
  lemma TableErrorFromFailure(env: Env, adapter: Adapter, models: seq<Model>, metrics: seq<DbtMetric>, startOfWeek: Option<Fields.WeekDay>, lineage: Dict<LineageGraph>, j: nat)
    requires j < |TablesStage(env, adapter, models, metrics, startOfWeek, lineage).1|
    ensures exists i ::
      && 0 <= i < |models| && TableFor(env, adapter, models[i], metrics, startOfWeek, lineage).Failure?
      && Reports(env, TablesStage(env, adapter, models, metrics, startOfWeek, lineage).1[j], models[i],
           TableFor(env, adapter, models[i], metrics, startOfWeek, lineage).error)
  {
    var results := TableResults(env, adapter, models, metrics, startOfWeek, lineage);
    var failed := Partition(models, results).1;
    PartitionSplits(models, results);
    var (m, e) := failed[j];
    assert (m, e) in failed;
    var i :| 0 <= i < |models| && models[i] == m && results[i] == Failure(e);
    assert ModelErrors(env, failed)[j] == ModelError(env, InfoOf(m), e);
    assert Reports(env, ModelErrors(env, failed)[j], models[i], e);
  }

  /**
   * A model with a legacy metric whose usability check overflows the call stack never becomes a
   * table: it is reported as an explore error with no dimensions found and the `RangeError`'s message.
   */
  lemma StackOverflowFailsModel(env: Env, adapter: Adapter, model: Model, metrics: seq<DbtMetric>, startOfWeek: Option<Fields.WeekDay>, lineage: Dict<LineageGraph>, i: nat)
    requires i < |metrics|
    requires LegacyMetrics.CanUseMetric(env.stackDepth, Some(metrics[i].name), model.name, metrics).Failure?
    ensures TableFor(env, adapter, model, metrics, startOfWeek, lineage) == Failure(PlainError(StackOverflowMessage))
    ensures ModelError(env, InfoOf(model), PlainError(StackOverflowMessage)).errors == [InlineError(NO_DIMENSIONS_FOUND, StackOverflowMessage)]
  {
    UsableMetricsFail(env, model.name, metrics, metrics, i);
  }

  /** One candidate whose check overflows makes the whole filter throw the `RangeError`. */
  lemma UsableMetricsFail(env: Env, modelName: string, metrics: seq<DbtMetric>, candidates: seq<DbtMetric>, i: nat)
    requires i < |candidates|
    requires LegacyMetrics.CanUseMetric(env.stackDepth, Some(candidates[i].name), modelName, metrics).Failure?
    ensures UsableMetrics(env, modelName, metrics, candidates) == Failure(PlainError(StackOverflowMessage))
  {
    UsableMetricsFilter(env, modelName, metrics, candidates);
  }
}
