# Lightdash semantic-model compiler, modelled in Dafny

This project models the part of Lightdash that compiles a dbt project into Lightdash
explores, together with the Postgres warehouse helpers that feed it.

The compiler takes dbt model nodes, legacy dbt metrics and a warehouse type catalog. From them it:

- builds tables of dimensions and metrics;
- fills in time-interval dimensions and additional dimensions;
- attaches each model's lineage;
- groups the tables into explores.

Every failure of a model's conversion in `convertExplores`, and of each explore it asks for, becomes an explore
error, typed as a metadata parse error or as "no dimensions found". The strict catalog validation of
`attachTypesToModels` throws to its caller instead, and the lineage step runs outside that error handling.

The Postgres client contributes:

- the warehouse type-name table;
- metric and concatenation SQL;
- string escaping;
- the catalog built from `information_schema` rows;
- result-field types;
- the conversion of an error position into a line and character.

Modules, leaves first:

- `Wrappers`, `JsText`, `Dicts`: `Option`/`Result`, the JavaScript string operations the code
  uses (truthiness, `||`, ASCII lower-casing, `split`, `join`, `replaceAll`), and JavaScript
  objects as ordered key/value sequences (`{...a, ...b}`, `Object.fromEntries`, the
  `reduce((acc, x) => ({...acc, [k]: v}), {})` idiom as `Assign`).
- `Fields`, `Errors`, `Dbt`, `ExploreTypes`: the records. `Dbt` also holds the `merge({}, meta,
  config.meta)` overlay of the metadata blocks.
- `Env`: the collaborators whose code is not part of this model, as total functions. They are
  `defaultSql`, `friendlyName`, `convertToGroups`, the time-frame configuration,
  `getDefaultTimeFrames`, `validateTimeFrames`, `parseMetricType`, the column and model metric
  converters and `ExploreCompiler.compileExplore`. `Env` also fixes two things the source does
  not show: whether `MissingCatalogEntryError` extends `ParseError`, and the call-stack depth
  available to `modelCanUseMetric`.
- `Dimensions`, `LegacyMetrics`, `Tables`, `Lineage`, `Explores`: `convertDimension`,
  `convertDbtMetricToLightdashMetric` and `modelCanUseMetric`, `convertTable`, lineage, and
  `convertExplores`.
- `Catalog`: `attachTypesToModels` and `getSchemaStructureFromDbtModels`.
- `Postgres`: the helpers of `PostgresWarehouseClient.ts`.

Some source functions update local variables step by step. These are methods:

- the reassigned locals of `convertDimension` and `convertDbtMetricToLightdashMetric`, proved
  equal to `DimensionFor` and `LegacyMetricFor` (the reference replacement inside the second
  is a loop);
- the `forEach` filling `groupDetails`, proved equal to `GroupEntries`;
- the validation `forEach` of `attachTypesToModels`, proved to throw exactly what `MissingTable` gives;
- the `for` loop of `getErrorLineAndCharPosition`, proved equal to `Locate`;
- the mutable `lineNumber` of `parseError`, whose contract states the error it builds;
- the in-place catalog fold of `getCatalog`, whose lookups are proved to be `LastType`.

The pure callers use the specification functions, never the methods.

`PostgresSqlBuilder` changes no state, so its methods are functions.

## Model

| member | source | states |
|---|---|---|
| Dimensions.ConvertTimezone | packages/common/src/compiler/translator.ts:56-93 | Only Snowflake rewrites timestamp SQL, to `TO_TIMESTAMP_NTZ(CONVERT_TIMEZONE('UTC', sql))`; every other adapter returns it unchanged |
| Dimensions.IsInterval | packages/common/src/compiler/translator.ts:95-102 | A dimension is an interval base exactly when it is a DATE or TIMESTAMP and `time_intervals` is neither `false` nor `'OFF'` |
| Dimensions.ConvertDimension | packages/common/src/compiler/translator.ts:104-199 | The method with its reassigned `type`, `name`, `sql` and `label` computes exactly the specification `DimensionFor` |
| Dimensions.DimensionTypeResolution | packages/common/src/compiler/translator.ts:116-127 | The type is the meta type, else the catalog type, else STRING. A name outside the enum fails with a `MissingCatalogEntryError` whose message names the type, the column and the model and lists the valid types |
| Dimensions.BaseSqlTimezone | packages/common/src/compiler/translator.ts:128-133 | Without an interval, the SQL is the meta SQL or the default; a TIMESTAMP's SQL goes through `convertTimezone` |
| Dimensions.IntervalOfBase | packages/common/src/compiler/translator.ts:144-164 | An interval dimension is named `column_interval`, keeps its base dimension's name, is labelled with the interval's label, and takes the interval's SQL and type |
| Dimensions.BaseIsIntervalBase | packages/common/src/compiler/translator.ts:134-135 | Without an interval, `isIntervalBase` is exactly `isInterval` of the resolved type |
| LegacyMetrics.NoMatchInsideWord | packages/common/src/compiler/translator.ts:245-249 | `\bref\b` never matches inside a run of word characters |
| LegacyMetrics.WholeToken | packages/common/src/compiler/translator.ts:245-249 | A whole token of word characters is replaced exactly when it equals the reference |
| LegacyMetrics.Separated | packages/common/src/compiler/translator.ts:245-249 | The text either side of a non-word character is rewritten independently, so every whole-word occurrence is replaced and nothing else |
| LegacyMetrics.Dedup | packages/common/src/compiler/translator.ts:235-237 | The set of referenced names holds exactly the names referenced, each once |
| LegacyMetrics.SubstituteLoop | packages/common/src/compiler/translator.ts:243-249 | The `forEach` rewriting `sql` once per reference equals replacing the references one after another |
| LegacyMetrics.ConvertDbtMetric | packages/common/src/compiler/translator.ts:224-324 | The method with its reassigned `sql` and `type` computes exactly the specification `LegacyMetricFor` |
| LegacyMetrics.LegacyMetricErrors | packages/common/src/compiler/translator.ts:233-257 | A derived metric fails exactly when it has no expression, and is otherwise a NUMBER. Any other method fails exactly when `parseMetricType` rejects it. Both errors are `ParseError`s. A metric keeps its name and table and gets no index yet |
| LegacyMetrics.NonDerivedSql | packages/common/src/compiler/translator.ts:258-279 | A non-derived metric's SQL is the default for the metric's own name, or for a bare-identifier expression, or else the expression verbatim, then wrapped by the filters |
| LegacyMetrics.FiltersWrap | packages/common/src/compiler/translator.ts:270-279 | No filters leave the SQL alone; filters give `CASE WHEN c1 AND … THEN sql ELSE NULL END` |
| LegacyMetrics.DerivedSingleReference | packages/common/src/compiler/translator.ts:233-249 | A derived metric whose expression is exactly its one referenced metric becomes `${name}` |
| LegacyMetrics.FindMetric | packages/common/src/compiler/translator.ts:634 | The position of the first metric with the name, or none when no metric has it |
| LegacyMetrics.CanUseCases | packages/common/src/compiler/translator.ts:629-655 | An unknown name is unusable. A metric whose first ref names the model is usable. A derived metric is usable exactly when all its references are. Any other metric is unusable |
| LegacyMetrics.AllUsableEvery | packages/common/src/compiler/translator.ts:648-653 | `every` is true exactly when each reference is usable, and vacuously for none; a throw propagates |
| LegacyMetrics.CanUseMonotone | packages/common/src/compiler/translator.ts:629-655 | The stack bound decides only whether an answer is reached: an answer at some depth is the answer at every larger depth |
| LegacyMetrics.SelfReferenceOverflows | packages/common/src/compiler/translator.ts:648-653 | A derived metric that refers to itself and is not tied to the model by its ref always exhausts the stack |
| LegacyMetrics.CanUseFailure | packages/common/src/compiler/translator.ts:629-655 | The only failure of `modelCanUseMetric` is the stack-overflow `RangeError` |
| LegacyMetrics.CanUseTerminates | packages/common/src/compiler/translator.ts:629-655 | When a rank on names is lowered by every reference of a derived metric not tied to the model (no cycle), a stack deeper than the name's rank always gives an answer |
| Tables.NormalizePrimaryKey | packages/common/src/compiler/translator.ts:326-333 | A non-empty single name becomes a one-element list, a list is kept, and an absent or empty key gives none |
| Tables.MetricPrecedence | packages/common/src/compiler/translator.ts:540-543 | A column metric wins over a model metric, which wins over a legacy metric of the same name; the keys are the union |
| Tables.ReindexPositions | packages/common/src/compiler/translator.ts:544-550 | Metrics with distinct names, re-keyed by name, keep their order and are numbered 0 to n-1 |
| Tables.Duplicates | packages/common/src/compiler/translator.ts:552-554 | Exactly the metric keys that are also dimension keys |
| Tables.TableFieldNamesUnique | packages/common/src/compiler/translator.ts:552-561 | A converted table has no metric whose name is a dimension key |
| Tables.TableChecksInOrder | packages/common/src/compiler/translator.ts:552-612 | A field failure propagates; then a name collision is a `ParseError`; then a missing relation is a plain `Error`; otherwise the table is built from the model and its merged metadata |
| Tables.CollisionMessageForms | packages/common/src/compiler/translator.ts:555-560 | The collision message is singular for one name and plural for several |
| Tables.FillGroupDetails | packages/common/src/compiler/translator.ts:566-574 | The `forEach` assigning into `groupDetails` leaves exactly the group entries, and none without `group_details` |
| Tables.GroupDetailsLookup | packages/common/src/compiler/translator.ts:566-574 | Every key of the metadata's groups maps to that group's label and description |
| Tables.IntervalDimsEntries | packages/common/src/compiler/translator.ts:389-426 | Every entry the interval loop adds has a time interval, is keyed `dim.name_interval`, is named `column.name_interval` and is not an interval base |
| Tables.ProcessIntervalEntries | packages/common/src/compiler/translator.ts:365-429 | `processIntervalDimension` adds nothing for a non-base dimension, and only interval entries of the dimension otherwise |
| Tables.IntervalDimsKeys | packages/common/src/compiler/translator.ts:389-426 | The interval loop adds a `dim.name_interval` key for every interval of its list and no other key |
| Tables.ProcessIntervalKeys | packages/common/src/compiler/translator.ts:365-429 | An interval base gets exactly one key per configured or default interval, each once; any other dimension gets none |
| Tables.AdditionalDimsKeys | packages/common/src/compiler/translator.ts:435-465 | The additional dimensions add exactly their own names and their interval keys |
| Tables.ColumnStepDims | packages/common/src/compiler/translator.ts:350-498 | A column adds its dimension under `column.name` and its extra entries; the extra entries win on a shared key, and every other key keeps its dimension |
| Tables.ColumnsFoldKeys | packages/common/src/compiler/translator.ts:349-500 | The reduce over the columns keeps every key and leaves a dimension under every column's name |
| Tables.IntervalKeysFollowDimensionName | packages/common/src/compiler/translator.ts:389-426 | A column's interval dimensions are keyed after the dimension's name but named after the column, so key and name agree exactly when the two names do |
| Dbt.ColumnMetaWithoutConfig | packages/common/src/compiler/translator.ts:115-116 | Without a config block the merged column metadata is the meta block |
| Dbt.ConfigDimensionWins | packages/common/src/compiler/translator.ts:115-117 | A dimension key set in the config block wins over the meta block |
| Dbt.MergeDictKeys | packages/common/src/compiler/translator.ts:116 | Merging objects keeps the base keys and adds the override's |
| Lineage.Family | packages/common/src/compiler/translator.ts:205-209 | A model's family consists of graph nodes and ends with the model itself |
| Lineage.TableLineageKeys | packages/common/src/compiler/translator.ts:201-219 | The lineage has an entry under a name exactly when some family member has that name |
| Lineage.TableLineageValues | packages/common/src/compiler/translator.ts:210-218 | Each entry is the direct-dependency data of a family member of that name |
| Lineage.OwnEntry | packages/common/src/compiler/translator.ts:205-218 | The model's own name maps to its own direct dependencies, because it comes last |
| Lineage.FamilyHasEntries | packages/common/src/compiler/translator.ts:205-218 | Every dependant and every dependency of the model has an entry under its name |
| Lineage.DirectDependencyHasEntry | packages/common/src/compiler/translator.ts:205-218 | When the graph's lists agree with its direct edges, every direct dependency of the model has an entry |
| Lineage.DirectDependantHasEntry | packages/common/src/compiler/translator.ts:205-218 | When the graph's lists agree with its direct edges, every model that directly depends on the model has an entry |
| Lineage.ModelsLineageKeys | packages/common/src/compiler/translator.ts:614-627 | The lineage map's keys are exactly the model names |
| Lineage.ModelsLineageLookup | packages/common/src/compiler/translator.ts:618-626 | A model that shares its name with no later model finds its own lineage under its name |
| ExploreTypes.ParseJoinRelationship | packages/common/src/types/explore.ts:16-21 | A string parses to the cardinality whose value it is, and to none when no value matches |
| ExploreTypes.JoinRelationshipRoundTrip | packages/common/src/types/explore.ts:16-21 | Every cardinality is recovered from its value |
| ExploreTypes.ErrorsOf | packages/common/src/types/explore.ts:96-98 | An entry has an `errors` list exactly when `isExploreError` holds |
| Explores.TagPrecedence | packages/common/src/compiler/translator.ts:671-679 | Config tags, as a list of one for a single tag, win unless absent or empty; otherwise the model's tags |
| Explores.ErrorFor | packages/common/src/compiler/translator.ts:703-721 | A `ParseError` (and a `MissingCatalogEntryError` where it extends it) is METADATA_PARSE_ERROR and anything else NO_DIMENSIONS_FOUND. An `Error` gives its message, any other value the fallback |
| Explores.UsableMetricsFilter | packages/common/src/compiler/translator.ts:685-687 | The filter succeeds exactly when no candidate's check throws; it keeps exactly the usable candidates; a throw is the stack-overflow `RangeError` |
| Explores.UsableMetricsInOrder | packages/common/src/compiler/translator.ts:685-687 | Without a throw, the usable metrics are `Filter` of the candidates by the usability test: each kept candidate where it stood, with its multiplicity |
| Explores.UsableMetricsSucceed | packages/common/src/compiler/translator.ts:685-687 | When the references have no cycle and the stack is deeper than every candidate's rank, the filter never throws |
| Explores.TableForNamesModel | packages/common/src/compiler/translator.ts:688-702 | A converted table keeps the model's name and carries the lineage found under it |
| Explores.PartitionSplits | packages/common/src/compiler/translator.ts:666-726 | Each model gives one table or one failure: the tables are exactly the successful conversions and the failures exactly the models that threw, with what they threw |
| Explores.PartitionInOrder | packages/common/src/compiler/translator.ts:666-726 | The reduce keeps model order: the tables are `Successes` of the results and the failures `Failures` of the models, both defined front to back |
| Explores.FailedModelReported | packages/common/src/compiler/translator.ts:703-722 | Every model whose conversion throws has a table error that carries its name, its label, its group label and its tags, with one inline error: METADATA_PARSE_ERROR exactly when it threw a `ParseError` (or a `MissingCatalogEntryError` that extends it), with the thrown message or the fallback naming the model |
| Explores.TableErrorFromFailure | packages/common/src/compiler/translator.ts:703-722 | Every table error reports, in that form, a model whose conversion threw |
| Explores.TableLookupFinds | packages/common/src/compiler/translator.ts:727-730 | The lookup holds a name exactly when some table has it, and the last such table wins |
| Explores.ValidModelsConverted | packages/common/src/compiler/translator.ts:731-733 | A model is valid exactly when some model of its name converted to a table |
| Explores.ValidModelsInOrder | packages/common/src/compiler/translator.ts:731-733 | The valid models are `Filter` of the models by the presence of their name in the table lookup: model order and multiplicity are kept |
| Explores.ExploresToCreate | packages/common/src/compiler/translator.ts:750-771 | One explore to create for the model itself and one per entry of its `explores` |
| Explores.BaseExplore | packages/common/src/compiler/translator.ts:750-840 | The first entry of a model is compiled from the model's name, label, group label, tags and metadata against the table lookup. Failing that, it is an error of that name and label with no tags and the "is not a valid model" fallback |
| Explores.AdditionalExplores | packages/common/src/compiler/translator.ts:758-811 | An additional explore takes its name and label from its entry and falls back to the model's group label. Its base table is the model's, and its own description overrides the metadata's when present |
| Explores.AdditionalExploreFallback | packages/common/src/compiler/translator.ts:813-839 | A non-`Error` failure of an additional explore names the model it comes from |
| Explores.ExploresStageCount | packages/common/src/compiler/translator.ts:736-844 | The valid models yield one entry per explore they ask for |
| Explores.AssembleLayout | packages/common/src/compiler/translator.ts:846 | The output has one entry per explore the valid models ask for, then one per table error; for every `i`, the `i`-th table error sits right after those explores, at position `ExploreCount(valid) + i` |
| Explores.TablesStageCount | packages/common/src/compiler/translator.ts:666-726 | Tables and table errors together number the models |
| Explores.StackOverflowFailsModel | packages/common/src/compiler/translator.ts:682-723 | A model with a legacy metric that overflows the stack becomes a NO_DIMENSIONS_FOUND error with the `RangeError`'s message |
| Catalog.FindKey | packages/common/src/compiler/translator.ts:863-867 | The first key of the object, in key order, that matches exactly or up to ASCII case; none exactly when no key does |
| Catalog.ExactMatch | packages/common/src/compiler/translator.ts:863-867 | Case-sensitive matching finds a key exactly when it is present as given |
| Catalog.IgnoreCaseLookup | packages/common/src/compiler/translator.ts:895-929 | Case-insensitive lookups depend on the four names only up to case |
| Catalog.ValidateModels | packages/common/src/compiler/translator.ts:861-890 | The validation loop throws exactly what `MissingTable` specifies, stopping at the first throw |
| Catalog.FirstMissing | packages/common/src/compiler/translator.ts:861-890 | The position of the first model whose table is missing: every earlier model's table is present, and there is none exactly when every table is present |
| Catalog.MissingTableFirst | packages/common/src/compiler/translator.ts:861-890 | Lenient mode never throws. Strict mode throws for none exactly when every table is present, and otherwise for the first missing table, naming that model |
| Catalog.TypeOfCases | packages/common/src/compiler/translator.ts:891-937 | A column lookup uses `alias \|\| name`. It throws only in strict mode and only for a column not found, with the source's message |
| Catalog.TypedEntriesShape | packages/common/src/compiler/translator.ts:940-949 | The typed columns keep keys, order and fields, each with its found type; the first throw stops |
| Catalog.TypedModelSucceeds | packages/common/src/compiler/translator.ts:938-949 | A model converts exactly when every column's lookup succeeds |
| Catalog.TypedModelColumns | packages/common/src/compiler/translator.ts:938-949 | A converted model differs only in its columns' `data_type` |
| Catalog.TypedModelsShape | packages/common/src/compiler/translator.ts:938-949 | All models convert exactly when each does, one per model, in order |
| Catalog.LenientNeverThrows | packages/common/src/compiler/translator.ts:930-937 | In lenient mode typing always succeeds |
| Catalog.StrictNeedsEveryEntry | packages/common/src/compiler/translator.ts:849-949 | Strict typing succeeds exactly when every model's table, looked up by name, and every column, looked up by `alias \|\| name`, is in the catalog. A missing table is reported before any missing column |
| Catalog.AttachTypesPreserves | packages/common/src/compiler/translator.ts:938-949 | Typing keeps models, order and fields; each column gets the name of the type the catalog holds for it, or none |
| Catalog.SchemaStructureLocatesTypes | packages/common/src/compiler/translator.ts:891-963 | The schema structure names exactly the tables the column lookup reads |
| Catalog.AliasedModelRejected | packages/common/src/compiler/translator.ts:862-899 | An aliased model whose columns are all in the catalog under its alias is rejected as written, and typed by the corrected validation |
| Catalog.StrictByTable | packages/common/src/compiler/translator.ts:862-899 | With validation by `alias \|\| name`, strict typing succeeds exactly when every table and column is at the location the schema structure names |
| Postgres.MapFieldType | packages/warehouses/src/warehouseClients/PostgresWarehouseClient.ts:74-112 | NUMBER exactly for the numeric names, DATE exactly for `date`, TIMESTAMP exactly for the time names, BOOLEAN exactly for `bool`/`boolean`, and STRING for every other name |
| Postgres.MetricSql | packages/warehouses/src/warehouseClients/PostgresWarehouseClient.ts:171-184 | AVERAGE renders `AVG(sql::DOUBLE PRECISION)`, MEDIAN `PERCENTILE_CONT(0.5) WITHIN GROUP (ORDER BY sql)`, PERCENTILE the same with the rendered `(percentile ?? 50) / 100`, and every other type is rendered by the base builder |
| Postgres.MedianIsDefaultPercentile | packages/warehouses/src/warehouseClients/PostgresWarehouseClient.ts:171-184 | MEDIAN renders the same SQL as a PERCENTILE with no percentile or with 50 |
| Postgres.ConcatStringSnoc | packages/warehouses/src/warehouseClients/PostgresWarehouseClient.ts:186-188 | One more operand appends ` \|\| operand` inside the parentheses |
| Postgres.ConcatStringSmall | packages/warehouses/src/warehouseClients/PostgresWarehouseClient.ts:186-188 | One operand is only parenthesised; none gives `()` |
| Postgres.EscapeString | packages/warehouses/src/warehouseClients/PostgresWarehouseClient.ts:157-168 | The escaped string contains no NUL character |
| Postgres.EscapePlain | packages/warehouses/src/warehouseClients/PostgresWarehouseClient.ts:157-168 | A value with no quote, backslash, NUL or comment comes back unchanged |
| Postgres.EscapeRoundTrip | packages/warehouses/src/warehouseClients/PostgresWarehouseClient.ts:157-168 | Undoing the backslash doubling, then the quote doubling, gives back a NUL-free value whose doubled form comment removal leaves alone |
| Postgres.ParseInt | packages/warehouses/src/warehouseClients/PostgresWarehouseClient.ts:536-538 | `parseInt(s, 10)` gives a number only when `s` has a digit |
| Postgres.ParseIntDecimal | packages/warehouses/src/warehouseClients/PostgresWarehouseClient.ts:536-538 | A decimal position, signed or not, is read back as its value |
| Postgres.ParseIntNoDigits | packages/warehouses/src/warehouseClients/PostgresWarehouseClient.ts:536-538 | A position with no digit is not a number |
| Postgres.GetErrorLineAndCharPosition | packages/warehouses/src/warehouseClients/PostgresWarehouseClient.ts:529-555 | No position, or `NaN`, gives none. Otherwise the result is exactly `Locate` of the lines of the query at the parsed position |
| Postgres.LocateInLines | packages/warehouses/src/warehouseClients/PostgresWarehouseClient.ts:540-554 | The `for` loop that moves the count on by each line's UTF-16 length and its newline returns exactly `Locate` of the lines and the position |
| Postgres.LocateMeaning | packages/warehouses/src/warehouseClients/PostgresWarehouseClient.ts:539-554 | None exactly when the position is beyond all lines. Otherwise the line is the first whose cumulative count (length+1 each) reaches the position, and the character is the position less the count before it. Lengths are UTF-16 code units |
| Postgres.SplitSpan | packages/warehouses/src/warehouseClients/PostgresWarehouseClient.ts:539 | The lines of a query, each counted with a newline, span its length in UTF-16 code units plus one |
| Postgres.LocatedWithinQuery | packages/warehouses/src/warehouseClients/PostgresWarehouseClient.ts:529-555 | A position is located exactly when it is at most the query's UTF-16 length plus one |
| Postgres.SurrogatePairExample | packages/warehouses/src/warehouseClients/PostgresWarehouseClient.ts:539-554 | A character beyond U+FFFF counts as two: in `"😀\nx"` position 3 is line 1, character 3, while in `"a\nx"` it is line 2, character 1 |
| Postgres.WithClauseAtShape | packages/warehouses/src/warehouseClients/PostgresWarehouseClient.ts:563 | The greedy scan matches exactly where `WITH`, white space, a name, white space, `AS`, optional white space and `(` occur, in any case |
| Postgres.HasWithClause | packages/warehouses/src/warehouseClients/PostgresWarehouseClient.ts:563 | `query.match(...)` is truthy exactly when the pattern matches at some position |
| Postgres.WithClauseExamples | packages/warehouses/src/warehouseClients/PostgresWarehouseClient.ts:563 | A wrapped query matches in mixed case; a query without the wrapper does not |
| Postgres.ParseError | packages/warehouses/src/warehouseClients/PostgresWarehouseClient.ts:557-578 | The message is kept. There is no line data exactly when the position is missing, not a number or beyond the query's UTF-16 length plus one. Otherwise the character is unchanged, and the line is the located one less one when the query has a `WITH … AS (` wrapper and the line is above 1 |
| Postgres.ReportedLine | packages/warehouses/src/warehouseClients/PostgresWarehouseClient.ts:568-573 | A position within the query is always located on a line between 1 and the number of lines |
| Postgres.FindRequest | packages/warehouses/src/warehouseClients/PostgresWarehouseClient.ts:449-454 | `requests.find` succeeds exactly when some request equals the row's catalog, schema and table |
| Postgres.SetColumnLookup | packages/warehouses/src/warehouseClients/PostgresWarehouseClient.ts:456-463 | The nested assignment sets its column and leaves every other column as it was |
| Postgres.CatalogFromRows | packages/warehouses/src/warehouseClients/PostgresWarehouseClient.ts:437-467 | No requests give `{}`. Every lookup equals the mapped type of the last kept row for that column, and absent when there is none |
| Postgres.LastTypeNone | packages/warehouses/src/warehouseClients/PostgresWarehouseClient.ts:437-467 | A column with no kept row is absent |
| Postgres.LastTypeIs | packages/warehouses/src/warehouseClients/PostgresWarehouseClient.ts:437-467 | A kept row that no later kept row overrides decides the column's type |
| Postgres.UnrequestedAbsent | packages/warehouses/src/warehouseClients/PostgresWarehouseClient.ts:449-454 | Rows of a table that was not requested never reach the catalog |
| Postgres.ConvertDataTypeId | packages/warehouses/src/warehouseClients/PostgresWarehouseClient.ts:115-139 | The first matching case decides: NUMBER exactly for a numeric builtin, DATE for the date builtin, TIMESTAMP for the four time builtins, BOOLEAN for the boolean builtin, each only when no earlier case matched, and STRING exactly for an identifier of none of them |
| Postgres.ResultFieldsLastWins | packages/warehouses/src/warehouseClients/PostgresWarehouseClient.ts:209-221 | A field name holds the type of the last field with that name |
| Postgres.ResultFieldsKeys | packages/warehouses/src/warehouseClients/PostgresWarehouseClient.ts:209-221 | The keys are exactly the field names, each once |

## Left out

- I/O of the Postgres client: the pool, SSL configuration, `streamQuery` and `runQuery`, the version query, type parsers, and `getAllTables`/`getFields`. The rows of the catalog query are an input of `CatalogFromRows`, and the text of the query is not modelled.
- Postgres.MetricSql: the PERCENTILE branch renders `(percentile ?? 50) / 100` as a JavaScript floating-point number. That rendering is a parameter `hundredths`.
- Postgres.EscapeString: `normalizeUnicode` and the two comment-removing regular expressions are parameters. The `typeof value !== 'string'` guard is left out because values are strings here.
- Postgres.ParseInt: positions beyond 2^53 lose precision in JavaScript and not here. A negative zero reads as 0.
- Postgres.ConvertDataTypeId: the identifiers of `pg.types.builtins` are a parameter record, not their numeric values.
- The collaborators in `Env` are total functions whose contracts are not modelled. Nothing is assumed about `friendlyName`, `defaultSql`, the time-frame configuration, the metric converters or `compileExplore` beyond determinism.
- Lineage.DepGraph: the graph `buildModelGraph` builds is an input. `Closed` asks only that every listed node is a node. The transitive `dependants` and `dependencies` lists are otherwise unconstrained. `Transitive` ties them to reachability over the direct edges, and only `DirectDependencyHasEntry` and `DirectDependantHasEntry` assume it. Neither predicate requires the graph to be acyclic, and the depth-first order of the lists (which decides a shared name's entry in the lineage) is not modelled.
- LegacyMetrics.CanUseMetric: the JavaScript call stack is a depth bound in `Env`, and running out of it is the `RangeError` that `convertExplores` reports.
- The classification of `MissingCatalogEntryError` as a `ParseError` is a parameter, because the class hierarchy is not part of this model.
- Lower: lower-casing is ASCII only. JavaScript's `toLowerCase` folds all of Unicode.
- A property read on a JavaScript object is an own-key lookup here (`Dicts.Get`, `Keys`). Members inherited from `Object.prototype` are not seen, so a model named `constructor`, `toString` or `valueOf` whose conversion threw is not a valid model here (Explores.ValidModels), whereas `tableLookup[model.name] !== undefined` in the source counts it as one and compiles explores for it.
- A JavaScript object's own ordering of integer-like keys ahead of other keys is not modelled. Objects keep insertion order, and `null` values are not modelled.
- A reference containing regular-expression metacharacters is taken literally in the `\bref\b` replacement.
- Fields that the compiler copies through without deciding anything are left out of the records. They are `format`, `round`, `compact`, `urls`, `colors`, `tags` of fields, `aiHint`, spotlight settings, `requiredFilters`, `requiredAttributes`, `defaultTimeDimension`, `orderFieldsBy`, `warehouse`, `databricksCompute`, `ymlPath` and `sqlPath`. A legacy metric's `showUnderlyingValues` and its parsed `filters` field (`parseFilters`) are left out too; its filters are used only where they wrap the SQL.
- `convertExplores` is asynchronous in the source; here it is one function.
- A metric's `percentile` is a JavaScript number in the source and an integer here.
- Default arguments are not modelled: every model function takes all its arguments. A caller that omits one passes the default, namely `throwOnMissingCatalogEntry = true` and `caseSensitiveMatching = true` of `attachTypesToModels`, and `query = ''` of `parseError`.

## Findings

| source | as written | input that shows it | evidently intended | confidence | as-written member | corrected member |
|---|---|---|---|---|---|---|
| packages/common/src/compiler/translator.ts:862-890 | The strict validation pass looks up each model's table by `name`. The column lookup (891-937) and `getSchemaStructureFromDbtModels` (955-963) use `alias \|\| name` | A model named `orders` with alias `orders_v2`, in strict mode, against a catalog holding `db.sc.orders_v2.id`. That catalog is what the schema structure requests | The validation checks the table stored under `alias \|\| name`, so that this model is typed | medium, not executed | Catalog.AliasedModelRejected | Catalog.StrictByTable |
