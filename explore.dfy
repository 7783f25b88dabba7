/** The compiled shapes: tables, explores, explore errors and the union of the last two. */
module ExploreTypes {
  import opened Wrappers
  import opened Dicts
  import opened Fields
  import opened Dbt

  /** The cardinality of a join: a closed set of four members. */
  datatype JoinRelationship = ONE_TO_MANY | MANY_TO_ONE | ONE_TO_ONE | MANY_TO_MANY {
    function Name(): string {
      match this
      case ONE_TO_MANY => "one-to-many"
      case MANY_TO_ONE => "many-to-one"
      case ONE_TO_ONE => "one-to-one"
      case MANY_TO_MANY => "many-to-many"
    }
  }

  /** The enum member whose value is `s`, if any. */
  function ParseJoinRelationship(s: string): (r: Option<JoinRelationship>)
    ensures r.Some? ==> r.value.Name() == s
  {
    if s == "one-to-many" then Some(ONE_TO_MANY)
    else if s == "many-to-one" then Some(MANY_TO_ONE)
    else if s == "one-to-one" then Some(ONE_TO_ONE)
    else if s == "many-to-many" then Some(MANY_TO_MANY)
    else None
  }

  /** Every cardinality is recovered from its value: there are exactly four, all distinct. */
  lemma JoinRelationshipRoundTrip(r: JoinRelationship)
    ensures ParseJoinRelationship(r.Name()) == Some(r)
  {
  }

  /** The two kinds of inline error. */
  datatype InlineErrorType = METADATA_PARSE_ERROR | NO_DIMENSIONS_FOUND {
    function Name(): string {
      match this
      case METADATA_PARSE_ERROR => "METADATA_PARSE_ERROR"
      case NO_DIMENSIONS_FOUND => "NO_DIMENSIONS_FOUND"
    }
  }

  datatype InlineError = InlineError(errorType: InlineErrorType, message: string)

  /** A join after its `sql_on` template was compiled. */
  datatype CompiledExploreJoin = CompiledExploreJoin(
    table: string,
    sqlOn: string,
    joinType: Option<string>,
    hidden: Option<bool>,
    always: Option<bool>,
    relationship: Option<JoinRelationship>,
    compiledSqlOn: string,
    tablesReferences: Option<seq<string>>)

  datatype GroupType = GroupType(labelText: Option<string>, description: Option<string>)

  /** A table; `lineageGraph` is absent until the batch driver attaches it. */
  datatype Table = Table(
    name: string,
    labelText: string,
    database: string,
    schema: string,
    sqlTable: string,
    description: string,
    dimensions: Dict<Dimension>,
    metrics: Dict<Metric>,
    groupLabel: Option<string>,
    primaryKey: Option<seq<string>>,
    sqlWhere: Option<string>,
    groupDetails: Dict<GroupType>,
    lineageGraph: Option<LineageGraph>)

  datatype Explore = Explore(
    name: string,
    labelText: string,
    tags: seq<string>,
    groupLabel: Option<string>,
    baseTable: string,
    joinedTables: seq<CompiledExploreJoin>,
    tables: Dict<Table>,
    targetDatabase: Adapter)

  /** The identity of an explore plus its errors; `tags` is the only other field it may carry. */
  datatype ExploreError = ExploreError(
    name: string,
    labelText: string,
    groupLabel: Option<string>,
    tags: Option<seq<string>>,
    errors: seq<InlineError>)

  /** `Explore | ExploreError` as an explicit two-case union. */
  datatype ExploreOrError = Compiled(explore: Explore) | Errored(error: ExploreError)

  /** `isExploreError`: the value is the case that carries an `errors` list. */
  predicate IsExploreError(e: ExploreOrError) {
    e.Errored?
  }

  /** The error list an entry carries, the field `isExploreError` looks for. */
  function ErrorsOf(e: ExploreOrError): (r: Option<seq<InlineError>>)
    ensures r.Some? <==> IsExploreError(e)
  {
    match e
    case Compiled(_) => None
    case Errored(err) => Some(err.errors)
  }

  /** Dimension and metric names of a table share one namespace. */
  ghost predicate FieldNamesUnique(t: Table) {
    forall k :: k in Keys(t.dimensions) ==> k !in Keys(t.metrics)
  }
}
