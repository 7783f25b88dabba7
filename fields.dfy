/** The field shapes the compiler produces: dimension and metric records and their closed type sets. */
module Fields {
  import opened Wrappers

  /** The semantic type of a dimension, a closed set of string-valued enum members. */
  datatype DimensionType = STRING | NUMBER | TIMESTAMP | DATE | BOOLEAN {
    /** The enum member's string value. */
    function Name(): string {
      match this
      case STRING => "string"
      case NUMBER => "number"
      case TIMESTAMP => "timestamp"
      case DATE => "date"
      case BOOLEAN => "boolean"
    }
  }

  /** `Object.values(DimensionType)`, in declaration order. */
  const AllDimensionTypes: seq<DimensionType> := [STRING, NUMBER, TIMESTAMP, DATE, BOOLEAN]

  /** `Object.values(DimensionType).includes(s)`, returning the member when it is one. */
  function ParseDimensionType(s: string): (r: Option<DimensionType>)
    ensures r.Some? ==> r.value.Name() == s
    ensures r.None? <==> forall t: DimensionType :: t.Name() != s
  {
    if s == "string" then Some(STRING)
    else if s == "number" then Some(NUMBER)
    else if s == "timestamp" then Some(TIMESTAMP)
    else if s == "date" then Some(DATE)
    else if s == "boolean" then Some(BOOLEAN)
    else
      UnknownName(s);
      None
  }

  lemma UnknownName(s: string)
    requires s !in ["string", "number", "timestamp", "date", "boolean"]
    ensures forall t: DimensionType :: t.Name() != s
  {
    forall t: DimensionType ensures t.Name() != s {
      match t
      case STRING => case NUMBER => case TIMESTAMP => case DATE => case BOOLEAN =>
    }
  }

  /** A time interval, by the value of its enum member (for example `DAY`); never empty. */
  type TimeFrame = s: string | |s| > 0 witness "DAY"

  /** The first day of the week a warehouse is configured with. */
  type WeekDay = int

  /**
   * The metric types the compiler and the Postgres dialect distinguish; the other members
   * of the enum are represented by their string value.
   */
  datatype MetricType = AverageMetric | PercentileMetric | MedianMetric | NumberMetric | OtherMetricType(value: string)

  /**
   * A compiled dimension (the fields of the record that the compiler decides). `label` and
   * `type` are Dafny keywords, so those fields are `labelText` and `dimensionType` here.
   */
  datatype Dimension = Dimension(
    index: int,
    name: string,
    labelText: string,
    sql: string,
    table: string,
    tableLabel: string,
    dimensionType: DimensionType,
    description: Option<string>,
    timeInterval: Option<TimeFrame>,
    timeIntervalBaseDimensionName: Option<string>,
    hidden: bool,
    isAdditionalDimension: bool,
    groups: seq<string>,
    isIntervalBase: bool)

  /** A compiled metric; `index` is set once all metric sources of a table are merged. */
  datatype Metric = Metric(
    name: string,
    labelText: string,
    table: string,
    tableLabel: string,
    sql: string,
    metricType: MetricType,
    description: Option<string>,
    hidden: bool,
    groups: seq<string>,
    percentile: Option<int>,
    index: Option<int>)
}
