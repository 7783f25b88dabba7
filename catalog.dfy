/**
 * `attachTypesToModels` and `getSchemaStructureFromDbtModels`: the warehouse catalog is looked
 * up level by level (database, schema, table, column), either by exact key or by comparing
 * lower-cased keys, and each column of each model gets the type found there.
 */
module Catalog {
  import opened Wrappers
  import opened JsText
  import opened Dicts
  import opened Fields
  import opened Errors
  import opened Dbt

  /** `{ [database]: { [schema]: { [table]: { [column]: DimensionType } } } }`. */
  type TableTypes = Dict<DimensionType>
  type WarehouseCatalog = Dict<Dict<Dict<TableTypes>>>

  /** The comparison one level of the lookup uses. */
  predicate KeyMatches(caseSensitive: bool, key: string, target: string) {
    if caseSensitive then key == target else Lower(key) == Lower(target)
  }

  /** `Object.keys(d).find(k => …)`: the first matching key. */
  function FindKey<V>(d: Dict<V>, target: string, caseSensitive: bool): (r: Option<string>)
    ensures r.Some? ==>
      exists i ::
        && 0 <= i < |d| && d[i].0 == r.value && KeyMatches(caseSensitive, d[i].0, target)
        && forall j :: 0 <= j < i ==> !KeyMatches(caseSensitive, d[j].0, target)
    ensures r.Some? ==> KeyMatches(caseSensitive, r.value, target)
    ensures r.None? <==> forall i :: 0 <= i < |d| ==> !KeyMatches(caseSensitive, d[i].0, target)
    decreases |d|
  {
    if |d| == 0 then None
    else if KeyMatches(caseSensitive, d[0].0, target) then Some(d[0].0)
    else
      var r := FindKey(d[1..], target, caseSensitive);
      assert forall i :: 1 <= i < |d| ==> d[i] == d[1..][i - 1];
      r
  }

  /**
   * A found key and the value under it; the `&&` chain treats a key found as `""` as no match.
   */
  function Step<V>(d: Dict<V>, target: string, caseSensitive: bool): (r: Option<V>)
    ensures r.Some? ==> FindKey(d, target, caseSensitive).Some? && FindKey(d, target, caseSensitive).value != ""
  {
    var k := FindKey(d, target, caseSensitive);
    if k.Some? && k.value != "" then Get(d, k.value) else None
  }

  /** The column types of a table, when database, schema and table all match. */
  function TableAt(catalog: WarehouseCatalog, caseSensitive: bool, database: string, schema: string, table: string): Option<TableTypes> {
    match Step(catalog, database, caseSensitive)
    case None => None
    case Some(schemas) =>
      match Step(schemas, schema, caseSensitive)
      case None => None
      case Some(tables) => Step(tables, table, caseSensitive)
  }

  /** The type of a column, when all four levels match. */
  function ColumnAt(catalog: WarehouseCatalog, caseSensitive: bool, database: string, schema: string, table: string, column: string): Option<DimensionType> {
    match TableAt(catalog, caseSensitive, database, schema, table)
    case None => None
    case Some(columns) => Step(columns, column, caseSensitive)
  }

  /** The table name a model is stored under: its alias, or its name. */
  function TableNameOf(model: Model): string {
    OrElse(model.alias, model.name)
  }

  function MissingTableMessage(model: Model): string {
    "Model \"" + model.name + "\" was expected in your target warehouse at \"" + model.database + "." + model.schema + "."
    + model.name + "\". Does the table exist in your target data warehouse?"
  }

  function MissingColumnMessage(model: Model, column: string): string {
    var t := TableNameOf(model);
    "Column \"" + column + "\" from model \"" + t + "\" does not exist.\n \"" + t + "." + column
    + "\" was not found in your target warehouse at " + model.database + "." + model.schema + "." + t
    + ". Try rerunning dbt to update your warehouse."
  }

  // ---------------------------------------------------------------------------------------
  // The validation pass: it checks each model's own name, not its alias.

  predicate HasTable(catalog: WarehouseCatalog, caseSensitive: bool, model: Model) {
    TableAt(catalog, caseSensitive, model.database, model.schema, model.name).Some?
  }

  /**
   * What the validation pass throws: in strict mode, for the first model `hasTable` rejects.
   * `hasTable` is the catalog lookup, `HasTable` for the catalog at hand.
   */
  function MissingTable(models: seq<Model>, strict: bool, hasTable: Model -> bool): (r: Option<Exception>) {
    if !strict then None
    else match FirstMissing(models, hasTable)
      case None => None
      case Some(i) => Some(MissingCatalogEntryError(MissingTableMessage(models[i])))
  }

  /** The position of the first model `hasTable` rejects. */
  function FirstMissing(models: seq<Model>, hasTable: Model -> bool): (r: Option<nat>)
    ensures r.Some? ==> r.value < |models| && !hasTable(models[r.value])
    ensures r.Some? ==> forall j :: 0 <= j < r.value ==> hasTable(models[j])
    ensures r.None? <==> forall i :: 0 <= i < |models| ==> hasTable(models[i])
    decreases |models|
  {
    if |models| == 0 then None
    else if !hasTable(models[0]) then Some(0)
    else
      var rest := FirstMissing(models[1..], hasTable);
      assert forall i :: 1 <= i < |models| ==> models[i] == models[1..][i - 1];
      match rest
      case None => None
      case Some(i) => Some(i + 1)
  }

  /** A rejected model preceded only by accepted ones is the first rejected one. */
  lemma FirstMissingAt(models: seq<Model>, hasTable: Model -> bool, i: nat)
    requires i < |models| && !hasTable(models[i])
    requires forall j :: 0 <= j < i ==> hasTable(models[j])
    ensures FirstMissing(models, hasTable) == Some(i)
  {
    var r := FirstMissing(models, hasTable);
    assert r.Some?;
    assert !(r.value < i) && !(r.value > i);
  }

  lemma AllFoundSnoc(models: seq<Model>, hasTable: Model -> bool, i: nat, strict: bool)
    requires i < |models| && (strict ==> hasTable(models[i]))
    requires strict ==> forall j :: 0 <= j < i ==> hasTable(models[j])
    ensures strict ==> forall j :: 0 <= j < i + 1 ==> hasTable(models[j])
  {
  }

  /** The `forEach` validation loop, stopping at the first throw. */
  method ValidateModels(catalog: WarehouseCatalog, models: seq<Model>, strict: bool, caseSensitive: bool) returns (thrown: Option<Exception>)
    ensures thrown == MissingTable(models, strict, m => HasTable(catalog, caseSensitive, m))
  {
    ghost var hasTable := m => HasTable(catalog, caseSensitive, m);
    var i := 0;
    while i < |models|
      invariant 0 <= i <= |models|
      invariant strict ==> forall j :: 0 <= j < i ==> hasTable(models[j])
    {
      var found := HasTable(catalog, caseSensitive, models[i]);
      assert found == hasTable(models[i]);
      if !found && strict {
        FirstMissingAt(models, hasTable, i);
        return Some(MissingCatalogEntryError(MissingTableMessage(models[i])));
      }
      AllFoundSnoc(models, hasTable, i, strict);
      i := i + 1;
    }
    return None;
  }

  // ---------------------------------------------------------------------------------------
  // Attaching the types.

  /** `getType`: the type found in the catalog, `undefined` in lenient mode, a throw in strict mode. */
  function TypeOf(catalog: WarehouseCatalog, strict: bool, caseSensitive: bool, model: Model, column: string): Result<Option<DimensionType>, Exception> {
    match ColumnAt(catalog, caseSensitive, model.database, model.schema, TableNameOf(model), column)
    case Some(t) => Success(Some(t))
    case None => if strict then Failure(MissingCatalogEntryError(MissingColumnMessage(model, column))) else Success(None)
  }

  function TypeName(t: Option<DimensionType>): Option<string> {
    match t
    case None => None
    case Some(d) => Some(d.Name())
  }

  /**
   * Each `[columnName, column]` entry with its `data_type` set, in entry order; the first throw
   * stops. `typeOf` is `getType` for the model at hand.
   */
  function TypedEntries(entries: Dict<Column>, typeOf: string -> Result<Option<DimensionType>, Exception>): Result<Dict<Column>, Exception>
    decreases |entries|
  {
    if |entries| == 0 then Success([])
    else
      var (k, c) := entries[0];
      var t :- typeOf(k);
      var rest :- TypedEntries(entries[1..], typeOf);
      Success([(k, c.(dataType := TypeName(t)))] + rest)
  }

  function TypedModel(catalog: WarehouseCatalog, strict: bool, caseSensitive: bool, model: Model): Result<Model, Exception> {
    var entries :- TypedEntries(model.columns, k => TypeOf(catalog, strict, caseSensitive, model, k));
    Success(model.(columns := FromEntries(entries)))
  }

  function TypedModels(catalog: WarehouseCatalog, strict: bool, caseSensitive: bool, models: seq<Model>): Result<seq<Model>, Exception> {
    MapThrowing(m => TypedModel(catalog, strict, caseSensitive, m), models)
  }

  /** `xs.map(f)` where `f` may throw: the first throw stops the mapping. */
  function MapThrowing<A, B>(f: A -> Result<B, Exception>, xs: seq<A>): Result<seq<B>, Exception>
    decreases |xs|
  {
    if |xs| == 0 then Success([])
    else
      var y :- f(xs[0]);
      var rest :- MapThrowing(f, xs[1..]);
      Success([y] + rest)
  }

  /** `attachTypesToModels`: the validation pass, then every model with its column types. */
  function AttachTypes(models: seq<Model>, catalog: WarehouseCatalog, strict: bool, caseSensitive: bool): Result<seq<Model>, Exception> {
    match MissingTable(models, strict, m => HasTable(catalog, caseSensitive, m))
    case Some(e) => Failure(e)
    case None => TypedModels(catalog, strict, caseSensitive, models)
  }

  /** One entry of `getSchemaStructureFromDbtModels`. */
  datatype SchemaEntry = SchemaEntry(database: string, schema: string, table: string)

  /** The locations to fetch the catalog for: exactly the tables the column lookup reads. */
  function SchemaStructure(models: seq<Model>): (r: seq<SchemaEntry>)
    ensures |r| == |models|
    ensures forall i :: 0 <= i < |models| ==>
      r[i] == SchemaEntry(models[i].database, models[i].schema, TableNameOf(models[i]))
  {
    seq(|models|, i requires 0 <= i < |models| => SchemaEntry(models[i].database, models[i].schema, OrElse(models[i].alias, models[i].name)))
  }

  // ---------------------------------------------------------------------------------------
  // Properties.

  /** Case-sensitive matching finds a key exactly when it is present as given. */
  lemma {:induction false} ExactMatch<V>(d: Dict<V>, target: string)
    ensures FindKey(d, target, true) == if target in Keys(d) then Some(target) else None
    decreases |d|
  {
    if |d| > 0 && d[0].0 != target {
      ExactMatch(d[1..], target);
      assert Keys(d) == [d[0].0] + Keys(d[1..]);
    }
  }

  /** Case-insensitive matching sees only the lower-cased target. */
  lemma {:induction false} IgnoreCaseMatch<V>(d: Dict<V>, a: string, b: string)
    requires Lower(a) == Lower(b)
    ensures FindKey(d, a, false) == FindKey(d, b, false)
    decreases |d|
  {
    if |d| > 0 {
      IgnoreCaseMatch(d[1..], a, b);
    }
  }

  /** Without case sensitivity the types found depend on the names only up to case. */
  lemma IgnoreCaseLookup(catalog: WarehouseCatalog, database: string, schema: string, table: string, column: string,
                         database': string, schema': string, table': string, column': string)
    requires Lower(database) == Lower(database') && Lower(schema) == Lower(schema')
    requires Lower(table) == Lower(table') && Lower(column) == Lower(column')
    ensures ColumnAt(catalog, false, database, schema, table, column) == ColumnAt(catalog, false, database', schema', table', column')
  {
    StepIgnoringCase(catalog, database, database');
    var s := Step(catalog, database, false);
    if s.Some? {
      StepIgnoringCase(s.value, schema, schema');
      var t := Step(s.value, schema, false);
      if t.Some? {
        StepIgnoringCase(t.value, table, table');
      }
    }
    assert TableAt(catalog, false, database, schema, table) == TableAt(catalog, false, database', schema', table');
    var c := TableAt(catalog, false, database, schema, table);
    if c.Some? {
      StepIgnoringCase(c.value, column, column');
    }
  }

  lemma StepIgnoringCase<V>(d: Dict<V>, a: string, b: string)
    requires Lower(a) == Lower(b)
    ensures Step(d, a, false) == Step(d, b, false)
  {
    IgnoreCaseMatch(d, a, b);
  }

  /**
   * Lenient validation never throws; strict validation throws for the first model whose table
   * is missing, naming that model, and for none when every table is there.
   */
  lemma MissingTableFirst(models: seq<Model>, strict: bool, hasTable: Model -> bool)
    ensures var r := MissingTable(models, strict, hasTable);
      && (r.None? <==> !strict || forall i :: 0 <= i < |models| ==> hasTable(models[i]))
      && (r.Some? ==> exists i :: (&& 0 <= i < |models| && !hasTable(models[i])
            && (forall j :: 0 <= j < i ==> hasTable(models[j]))
            && r.value == MissingCatalogEntryError(MissingTableMessage(models[i]))))
  {
    if strict {
      match FirstMissing(models, hasTable)
      case None =>
      case Some(i) =>
        assert !hasTable(models[i]) && (forall j :: 0 <= j < i ==> hasTable(models[j]))
          && MissingTable(models, strict, hasTable).value == MissingCatalogEntryError(MissingTableMessage(models[i]));
    }
  }

  /** A column lookup throws only in strict mode, and only when the column is not found. */
  lemma TypeOfCases(catalog: WarehouseCatalog, strict: bool, caseSensitive: bool, model: Model, column: string)
    ensures var r := TypeOf(catalog, strict, caseSensitive, model, column);
      var found := ColumnAt(catalog, caseSensitive, model.database, model.schema, TableNameOf(model), column);
      && (r.Failure? <==> strict && found.None?)
      && (r.Success? ==> r.value == found)
      && (r.Failure? ==> r.error == MissingCatalogEntryError(MissingColumnMessage(model, column)))
  {
  }

  /**
   * The typed entries keep the keys, order and every other field of the columns; each gets the
   * type found for its key, and the first column whose lookup throws stops the conversion.
   */
  lemma {:induction false} TypedEntriesShape(entries: Dict<Column>, typeOf: string -> Result<Option<DimensionType>, Exception>)
    ensures var r := TypedEntries(entries, typeOf);
      && (r.Success? <==> forall j :: 0 <= j < |entries| ==> typeOf(entries[j].0).Success?)
      && (r.Success? ==> |r.value| == |entries| && Keys(r.value) == Keys(entries))
      && (r.Success? ==> forall j :: 0 <= j < |entries| ==>
            r.value[j].1 == entries[j].1.(dataType := TypeName(typeOf(entries[j].0).value)))
    decreases |entries|
  {
    if |entries| > 0 {
      var tail := entries[1..];
      var k := entries[0].0;
      var rest := TypedEntries(tail, typeOf);
      TypedEntriesShape(tail, typeOf);
      assert forall j :: 1 <= j < |entries| ==> entries[j] == tail[j - 1];
      if typeOf(k).Success? && rest.Success? {
        var head := (k, entries[0].1.(dataType := TypeName(typeOf(k).value)));
        assert TypedEntries(entries, typeOf) == Success([head] + rest.value);
        assert Keys([head] + rest.value) == Keys(entries) by {
          KeysCons([head] + rest.value);
          KeysCons(entries);
          assert ([head] + rest.value)[1..] == rest.value;
        }
      }
    }
  }

  /** A model converts exactly when every column's lookup succeeds. */
  lemma TypedModelSucceeds(catalog: WarehouseCatalog, strict: bool, caseSensitive: bool, model: Model)
    ensures TypedModel(catalog, strict, caseSensitive, model).Success? <==>
      forall j :: 0 <= j < |model.columns| ==> TypeOf(catalog, strict, caseSensitive, model, model.columns[j].0).Success?
  {
    TypedEntriesShape(model.columns, k => TypeOf(catalog, strict, caseSensitive, model, k));
  }

  /**
   * A converted model differs from the original in its columns only, and those keep their keys,
   * order and fields, each with the type found for its key.
   */
  lemma TypedModelColumns(catalog: WarehouseCatalog, strict: bool, caseSensitive: bool, model: Model)
    requires DistinctKeys(model.columns)
    requires TypedModel(catalog, strict, caseSensitive, model).Success?
    ensures var m := TypedModel(catalog, strict, caseSensitive, model).value;
      && m == model.(columns := m.columns)
      && |m.columns| == |model.columns|
      && forall j :: 0 <= j < |model.columns| ==>
           TypeOf(catalog, strict, caseSensitive, model, model.columns[j].0).Success? &&
           m.columns[j] == (model.columns[j].0,
             model.columns[j].1.(dataType := TypeName(TypeOf(catalog, strict, caseSensitive, model, model.columns[j].0).value)))
  {
    var typeOf := k => TypeOf(catalog, strict, caseSensitive, model, k);
    TypedModelSucceeds(catalog, strict, caseSensitive, model);
    TypedEntriesShape(model.columns, typeOf);
    var entries := TypedEntries(model.columns, typeOf).value;
    assert DistinctKeys(entries) by {
      assert forall j :: 0 <= j < |entries| ==> entries[j].0 == Keys(entries)[j] == Keys(model.columns)[j] == model.columns[j].0;
    }
    FromEntriesOfObject(entries);
  }

  /** The models convert exactly when each does, giving one model per model, in order. */
  lemma TypedModelsShape(catalog: WarehouseCatalog, strict: bool, caseSensitive: bool, models: seq<Model>)
    ensures var r := TypedModels(catalog, strict, caseSensitive, models);
      && (r.Success? <==> forall i :: 0 <= i < |models| ==> TypedModel(catalog, strict, caseSensitive, models[i]).Success?)
      && (r.Success? ==> (|r.value| == |models| &&
            forall i :: 0 <= i < |models| ==> r.value[i] == TypedModel(catalog, strict, caseSensitive, models[i]).value))
  {
    MapThrowingShape(m => TypedModel(catalog, strict, caseSensitive, m), models);
  }

  lemma {:induction false} MapThrowingShape<A, B>(f: A -> Result<B, Exception>, xs: seq<A>)
    ensures var r := MapThrowing(f, xs);
      && (r.Success? <==> forall i :: 0 <= i < |xs| ==> f(xs[i]).Success?)
      && (r.Success? ==> (|r.value| == |xs| && forall i :: 0 <= i < |xs| ==> r.value[i] == f(xs[i]).value))
    decreases |xs|
  {
    if |xs| > 0 {
      MapThrowingShape(f, xs[1..]);
      assert forall i :: 1 <= i < |xs| ==> xs[i] == xs[1..][i - 1];
    }
  }

  /** In lenient mode nothing throws: a column missing from the catalog just gets no type. */
  lemma LenientNeverThrows(models: seq<Model>, catalog: WarehouseCatalog, caseSensitive: bool)
    ensures AttachTypes(models, catalog, false, caseSensitive).Success?
  {
    forall i | 0 <= i < |models| ensures TypedModel(catalog, false, caseSensitive, models[i]).Success? {
      TypedModelSucceeds(catalog, false, caseSensitive, models[i]);
    }
    TypedModelsShape(catalog, false, caseSensitive, models);
  }

  /**
   * In strict mode the models are typed exactly when every model's table and every column is in
   * the catalog; otherwise the first missing table is reported before any missing column.
   */
  lemma StrictNeedsEveryEntry(models: seq<Model>, catalog: WarehouseCatalog, caseSensitive: bool)
    ensures var r := AttachTypes(models, catalog, true, caseSensitive);
      && (r.Success? <==>
            (forall i :: 0 <= i < |models| ==> HasTable(catalog, caseSensitive, models[i])) &&
            (forall i, j :: 0 <= i < |models| && 0 <= j < |models[i].columns| ==>
               ColumnAt(catalog, caseSensitive, models[i].database, models[i].schema, TableNameOf(models[i]), models[i].columns[j].0).Some?))
      && (MissingTable(models, true, m => HasTable(catalog, caseSensitive, m)).Some? ==>
            r == Failure(MissingTable(models, true, m => HasTable(catalog, caseSensitive, m)).value))
  {
    var hasTable := m => HasTable(catalog, caseSensitive, m);
    MissingTableFirst(models, true, hasTable);
    TypedModelsShape(catalog, true, caseSensitive, models);
    forall i | 0 <= i < |models|
      ensures TypedModel(catalog, true, caseSensitive, models[i]).Success? <==>
        forall j :: 0 <= j < |models[i].columns| ==>
          ColumnAt(catalog, caseSensitive, models[i].database, models[i].schema, TableNameOf(models[i]), models[i].columns[j].0).Some?
    {
      TypedModelSucceeds(catalog, true, caseSensitive, models[i]);
      forall j | 0 <= j < |models[i].columns| {
        TypeOfCases(catalog, true, caseSensitive, models[i], models[i].columns[j].0);
      }
    }
  }

  /** The catalog is requested for exactly the tables the column lookup reads. */
  lemma SchemaStructureLocatesTypes(models: seq<Model>, catalog: WarehouseCatalog, strict: bool, caseSensitive: bool, i: nat, column: string)
    requires i < |models|
    ensures var e := SchemaStructure(models)[i];
      TypeOf(catalog, strict, caseSensitive, models[i], column).Success? ==>
        TypeOf(catalog, strict, caseSensitive, models[i], column).value == ColumnAt(catalog, caseSensitive, e.database, e.schema, e.table, column)
  {
  }

  /**
   * Typing keeps the models, their order and every field but the columns; each column keeps its
   * key, position and fields and gets the name of the type the catalog holds for it, or none.
   */
  lemma AttachTypesPreserves(models: seq<Model>, catalog: WarehouseCatalog, strict: bool, caseSensitive: bool, i: nat)
    requires AttachTypes(models, catalog, strict, caseSensitive).Success?
    requires i < |models| && DistinctKeys(models[i].columns)
    ensures var r := AttachTypes(models, catalog, strict, caseSensitive).value;
      && |r| == |models|
      && r[i] == models[i].(columns := r[i].columns)
      && |r[i].columns| == |models[i].columns|
      && forall j :: 0 <= j < |models[i].columns| ==>
           var (k, c) := models[i].columns[j];
           r[i].columns[j] == (k, c.(dataType := TypeName(ColumnAt(catalog, caseSensitive, models[i].database, models[i].schema, TableNameOf(models[i]), k))))
  {
    TypedModelsShape(catalog, strict, caseSensitive, models);
    TypedModelColumns(catalog, strict, caseSensitive, models[i]);
    forall j | 0 <= j < |models[i].columns| {
      TypeOfCases(catalog, strict, caseSensitive, models[i], models[i].columns[j].0);
    }
  }

  // ---------------------------------------------------------------------------------------
  // The validation pass checks the model's name where the column lookup, and the schema
  // structure the catalog is fetched for, use the alias.

  /** The validation the column lookup implies: the table under the alias, or the name. */
  predicate HasStoredTable(catalog: WarehouseCatalog, caseSensitive: bool, model: Model) {
    TableAt(catalog, caseSensitive, model.database, model.schema, TableNameOf(model)).Some?
  }

  /** `attachTypesToModels` with the validation pass looking up `alias || name`. */
  function AttachTypesByTable(models: seq<Model>, catalog: WarehouseCatalog, strict: bool, caseSensitive: bool): Result<seq<Model>, Exception> {
    match MissingTable(models, strict, m => HasStoredTable(catalog, caseSensitive, m))
    case Some(e) => Failure(e)
    case None => TypedModels(catalog, strict, caseSensitive, models)
  }

  /** A model `orders` stored under the alias `orders_v2`, with one column `id`. */
  const AliasedOrders: Model := Model("model.orders", "orders", "db", "sc", Some("orders_v2"), None, None,
    [("id", Column("id", None, None, NoColumnMeta, None))], NoModelMeta, None, [], None)

  /** A catalog holding the aliased table `db.sc.orders_v2` and its numeric column `id`. */
  const AliasedCatalog: WarehouseCatalog := [("db", [("sc", [("orders_v2", [("id", NUMBER)])])])]

  /**
   * An aliased model whose table and column are in the catalog, at the location the schema
   * structure asks for, is rejected as written and typed once validation uses the alias.
   */
  lemma AliasedModelRejected()
    ensures var e := SchemaStructure([AliasedOrders])[0];
      ColumnAt(AliasedCatalog, true, e.database, e.schema, e.table, "id") == Some(NUMBER)
    ensures AttachTypes([AliasedOrders], AliasedCatalog, true, true).Failure?
    ensures AttachTypesByTable([AliasedOrders], AliasedCatalog, true, true).Success?
  {
    AliasedLookups();
    AliasedRejected();
    AliasedAcceptedByTable();
  }

  /** The as-written validation finds no table under the model's own name. */
  lemma AliasedRejected()
    ensures AttachTypes([AliasedOrders], AliasedCatalog, true, true).Failure?
  {
    AliasedLookups();
    assert FirstMissing([AliasedOrders], m => HasTable(AliasedCatalog, true, m)) == Some(0);
  }

  /** Validation by the stored table name accepts the aliased model. */
  lemma AliasedAcceptedByTable()
    ensures AttachTypesByTable([AliasedOrders], AliasedCatalog, true, true).Success?
  {
    AliasedLookups();
    assert |AliasedOrders.columns| == 1 && AliasedOrders.columns[0].0 == "id";
    SingleAcceptedByTable(AliasedOrders, AliasedCatalog, true);
  }

  /** A single model whose stored table and every column are in the catalog is typed. */
  lemma SingleAcceptedByTable(m: Model, catalog: WarehouseCatalog, caseSensitive: bool)
    requires HasStoredTable(catalog, caseSensitive, m)
    requires forall j :: 0 <= j < |m.columns| ==>
      ColumnAt(catalog, caseSensitive, m.database, m.schema, TableNameOf(m), m.columns[j].0).Some?
    ensures AttachTypesByTable([m], catalog, true, caseSensitive).Success?
  {
    StrictByTable([m], catalog, caseSensitive);
    assert SchemaStructure([m])[0] == SchemaEntry(m.database, m.schema, TableNameOf(m));
  }

  /** The case-sensitive lookups of the aliased example. */
  lemma AliasedLookups()
    ensures TableNameOf(AliasedOrders) == "orders_v2"
    ensures SchemaStructure([AliasedOrders])[0] == SchemaEntry("db", "sc", "orders_v2")
    ensures !HasTable(AliasedCatalog, true, AliasedOrders)
    ensures HasStoredTable(AliasedCatalog, true, AliasedOrders)
    ensures ColumnAt(AliasedCatalog, true, "db", "sc", "orders_v2", "id") == Some(NUMBER)
  {
    var columns: TableTypes := [("id", NUMBER)];
    var tables: Dict<TableTypes> := [("orders_v2", columns)];
    StepFirst(AliasedCatalog, "db");
    StepFirst([("sc", tables)], "sc");
    StepFirst(tables, "orders_v2");
    StepOnlyOther(tables, "orders");
    StepFirst(columns, "id");
    assert TableAt(AliasedCatalog, true, "db", "sc", "orders_v2") == Some(columns);
    assert TableAt(AliasedCatalog, true, "db", "sc", "orders") == None;
  }

  /** An exact lookup of the first key finds its value. */
  lemma StepFirst<V>(d: Dict<V>, k: string)
    requires |d| > 0 && d[0].0 == k && k != ""
    ensures Step(d, k, true) == Some(d[0].1)
  {
    assert Find(d, k) == Some(0);
  }

  /** An exact lookup in an object with one other key finds nothing. */
  lemma StepOnlyOther<V>(d: Dict<V>, k: string)
    requires |d| == 1 && d[0].0 != k
    ensures Step(d, k, true) == None
  {
    assert FindKey(d[1..], k, true) == None;
  }

  /**
   * With the corrected validation, strict typing succeeds exactly when every model's table
   * and every column is found at the location the schema structure names for it.
   */
  lemma StrictByTable(models: seq<Model>, catalog: WarehouseCatalog, caseSensitive: bool)
    ensures var r := AttachTypesByTable(models, catalog, true, caseSensitive);
      var locs := SchemaStructure(models);
      r.Success? <==>
        (forall i :: 0 <= i < |models| ==> TableAt(catalog, caseSensitive, locs[i].database, locs[i].schema, locs[i].table).Some?) &&
        (forall i, j :: 0 <= i < |models| && 0 <= j < |models[i].columns| ==>
           ColumnAt(catalog, caseSensitive, locs[i].database, locs[i].schema, locs[i].table, models[i].columns[j].0).Some?)
  {
    var hasTable := m => HasStoredTable(catalog, caseSensitive, m);
    var locs := SchemaStructure(models);
    MissingTableFirst(models, true, hasTable);
    assert forall i :: 0 <= i < |models| ==>
      (hasTable(models[i]) <==> TableAt(catalog, caseSensitive, locs[i].database, locs[i].schema, locs[i].table).Some?);
    TypedModelsShape(catalog, true, caseSensitive, models);
    forall i | 0 <= i < |models|
      ensures TypedModel(catalog, true, caseSensitive, models[i]).Success? <==>
        forall j :: 0 <= j < |models[i].columns| ==>
          ColumnAt(catalog, caseSensitive, models[i].database, models[i].schema, TableNameOf(models[i]), models[i].columns[j].0).Some?
    {
      TypedModelSucceeds(catalog, true, caseSensitive, models[i]);
      forall j | 0 <= j < |models[i].columns| {
        TypeOfCases(catalog, true, caseSensitive, models[i], models[i].columns[j].0);
      }
    }
  }
}
