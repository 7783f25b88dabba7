/**
 * Legacy (dbt metrics) metric conversion: the whole-word substitution of referenced metrics,
 * the expression and filter rules, and the recursive test whether a model can use a metric.
 */
module LegacyMetrics {
  import opened Wrappers
  import opened JsText
  import opened Fields
  import opened Errors
  import opened Dbt
  import opened Env

  // ---------------------------------------------------------------------------------------
  // `s.replace(new RegExp(`\\b${w}\\b`, 'g'), rep)` for a literal word `w`.

  /** There is a word boundary between a character of class `prevWord` and the start of `s`. */
  predicate Boundary(prevWord: bool, s: string) {
    prevWord != (|s| > 0 && IsWordChar(s[0]))
  }

  /** Whether the last character consumed is a word character, after matching `w`. */
  function AfterWord(prevWord: bool, w: string): bool {
    if |w| == 0 then prevWord else IsWordChar(w[|w| - 1])
  }

  /** `\bw\b` matches at the start of `s`, the character before it being of class `prevWord`. */
  predicate MatchHere(prevWord: bool, s: string, w: string) {
    |w| <= |s| && s[..|w|] == w && Boundary(prevWord, s) && Boundary(AfterWord(prevWord, w), s[|w|..])
  }

  /**
   * The global replacement, scanning left to right: at a match the replacement is emitted and the
   * match skipped (an empty match lets one character through), otherwise one character is copied.
   */
  function ReplaceWordFrom(prevWord: bool, s: string, w: string, rep: string): string
    decreases |s|
  {
    if MatchHere(prevWord, s, w) then
      if |w| > 0 then rep + ReplaceWordFrom(IsWordChar(w[|w| - 1]), s[|w|..], w, rep)
      else if |s| == 0 then rep
      else rep + [s[0]] + ReplaceWordFrom(IsWordChar(s[0]), s[1..], w, rep)
    else if |s| == 0 then ""
    else [s[0]] + ReplaceWordFrom(IsWordChar(s[0]), s[1..], w, rep)
  }

  function ReplaceWord(s: string, w: string, rep: string): string {
    ReplaceWordFrom(false, s, w, rep)
  }

  /** `w` is a non-empty run of word characters, the usual shape of a metric name. */
  predicate Identifier(w: string) {
    |w| > 0 && forall i :: 0 <= i < |w| ==> IsWordChar(w[i])
  }

  predicate AllWordChars(s: string) {
    forall i :: 0 <= i < |s| ==> IsWordChar(s[i])
  }

  /** Inside a run of word characters there is no boundary, so nothing is replaced. */
  lemma {:induction false} NoMatchInsideWord(s: string, w: string, rep: string)
    requires Identifier(w) && AllWordChars(s)
    ensures ReplaceWordFrom(true, s, w, rep) == s
    decreases |s|
  {
    if |s| > 0 {
      assert !MatchHere(true, s, w);
      assert AllWordChars(s[1..]);
      NoMatchInsideWord(s[1..], w, rep);
      assert s == [s[0]] + s[1..];
    }
  }

  lemma NoMatchAtNonWord(prevWord: bool, s: string, w: string)
    requires Identifier(w) && |s| > 0 && !IsWordChar(s[0])
    ensures !MatchHere(prevWord, s, w)
  {
  }

  /** A whole token of word characters is replaced exactly when it is the word. */
  lemma WholeToken(s: string, w: string, rep: string)
    requires Identifier(w) && AllWordChars(s)
    ensures ReplaceWord(s, w, rep) == if s == w then rep else s
  {
    if s == w {
      assert MatchHere(false, s, w);
      assert s[|w|..] == "";
      assert IsWordChar(w[|w| - 1]);
      assert ReplaceWordFrom(true, "", w, rep) == "";
      assert ReplaceWord(s, w, rep) == rep + ReplaceWordFrom(true, "", w, rep);
    } else if |s| > 0 {
      assert !MatchHere(false, s, w) by {
        if |w| <= |s| && s[..|w|] == w {
          assert |w| < |s|;
          assert IsWordChar(s[|w|]);
        }
      }
      assert AllWordChars(s[1..]);
      NoMatchInsideWord(s[1..], w, rep);
      assert s == [s[0]] + s[1..];
    }
  }

  /** A match that starts inside `a` ends inside `a`: the separator cannot be part of the word. */
  lemma MatchBeforeSeparator(prevWord: bool, a: string, c: char, b: string, w: string)
    requires Identifier(w) && !IsWordChar(c) && |a| > 0
    ensures MatchHere(prevWord, a + [c] + b, w) <==> MatchHere(prevWord, a, w)
  {
    var s := a + [c] + b;
    assert s[0] == a[0];
    if |w| <= |a| {
      assert s[..|w|] == a[..|w|];
      if |w| < |a| {
        assert s[|w|..][0] == a[|w|..][0];
      } else {
        assert a[|w|..] == "";
        assert s[|w|..][0] == c;
      }
    } else {
      assert !(|w| <= |s| && s[..|w|] == w) by {
        if |w| <= |s| {
          assert s[..|w|][|a|] == c;
          assert IsWordChar(w[|a|]);
        }
      }
    }
  }

  /** One step of the replacement over a non-empty word: a match, or one copied character. */
  lemma ReplaceStep(prevWord: bool, s: string, w: string, rep: string)
    requires |w| > 0 && |s| > 0
    ensures MatchHere(prevWord, s, w) ==>
      ReplaceWordFrom(prevWord, s, w, rep) == rep + ReplaceWordFrom(IsWordChar(w[|w| - 1]), s[|w|..], w, rep)
    ensures !MatchHere(prevWord, s, w) ==>
      ReplaceWordFrom(prevWord, s, w, rep) == [s[0]] + ReplaceWordFrom(IsWordChar(s[0]), s[1..], w, rep)
  {
  }

  lemma SeparatorFirst(prevWord: bool, c: char, b: string, w: string, rep: string)
    requires Identifier(w) && !IsWordChar(c)
    ensures ReplaceWordFrom(prevWord, [c] + b, w, rep) == [c] + ReplaceWordFrom(false, b, w, rep)
  {
    NoMatchAtNonWord(prevWord, [c] + b, w);
    ReplaceStep(prevWord, [c] + b, w, rep);
    assert ([c] + b)[1..] == b;
  }

  /**
   * A non-word character separates the replacement: what lies before it and what lies after it
   * are rewritten independently. With `WholeToken` this says that every whole-word occurrence of
   * an identifier, and nothing else, is replaced.
   */
  lemma {:induction false} Separated(prevWord: bool, a: string, c: char, b: string, w: string, rep: string)
    requires Identifier(w) && !IsWordChar(c)
    ensures ReplaceWordFrom(prevWord, a + [c] + b, w, rep)
         == ReplaceWordFrom(prevWord, a, w, rep) + [c] + ReplaceWordFrom(false, b, w, rep)
    decreases |a|, 1
  {
    var s := a + [c] + b;
    if |a| == 0 {
      assert s == [c] + b;
      SeparatorFirst(prevWord, c, b, w, rep);
    } else {
      MatchBeforeSeparator(prevWord, a, c, b, w);
      if MatchHere(prevWord, a, w) {
        SeparatedAtMatch(prevWord, a, c, b, w, rep);
      } else {
        SeparatedAtCopy(prevWord, a, c, b, w, rep);
      }
    }
  }

  /** `Separated` when the word matches at the start of `a`. */
  lemma {:induction false} SeparatedAtMatch(prevWord: bool, a: string, c: char, b: string, w: string, rep: string)
    requires Identifier(w) && !IsWordChar(c)
    requires MatchHere(prevWord, a, w) && MatchHere(prevWord, a + [c] + b, w)
    ensures ReplaceWordFrom(prevWord, a + [c] + b, w, rep)
         == ReplaceWordFrom(prevWord, a, w, rep) + [c] + ReplaceWordFrom(false, b, w, rep)
    decreases |a|, 0
  {
    var s := a + [c] + b;
    var after := IsWordChar(w[|w| - 1]);
    var rest := a[|w|..];
    assert s[|w|..] == rest + [c] + b;
    assert ReplaceWordFrom(prevWord, s, w, rep) == rep + ReplaceWordFrom(after, rest + [c] + b, w, rep) by {
      ReplaceStep(prevWord, s, w, rep);
    }
    assert ReplaceWordFrom(prevWord, a, w, rep) == rep + ReplaceWordFrom(after, rest, w, rep) by {
      ReplaceStep(prevWord, a, w, rep);
    }
    Separated(after, rest, c, b, w, rep);
  }

  /** `Separated` when the first character of `a` is copied. */
  lemma {:induction false} SeparatedAtCopy(prevWord: bool, a: string, c: char, b: string, w: string, rep: string)
    requires Identifier(w) && !IsWordChar(c) && |a| > 0
    requires !MatchHere(prevWord, a, w) && !MatchHere(prevWord, a + [c] + b, w)
    ensures ReplaceWordFrom(prevWord, a + [c] + b, w, rep)
         == ReplaceWordFrom(prevWord, a, w, rep) + [c] + ReplaceWordFrom(false, b, w, rep)
    decreases |a|, 0
  {
    var s := a + [c] + b;
    var x := IsWordChar(a[0]);
    var tail := a[1..];
    assert s[0] == a[0] && s[1..] == tail + [c] + b;
    assert ReplaceWordFrom(prevWord, s, w, rep) == [a[0]] + ReplaceWordFrom(x, tail + [c] + b, w, rep) by {
      ReplaceStep(prevWord, s, w, rep);
    }
    assert ReplaceWordFrom(prevWord, a, w, rep) == [a[0]] + ReplaceWordFrom(x, tail, w, rep) by {
      ReplaceStep(prevWord, a, w, rep);
    }
    Separated(x, tail, c, b, w, rep);
    Regroup([a[0]], ReplaceWordFrom(x, tail, w, rep), [c], ReplaceWordFrom(false, b, w, rep));
  }

  // ---------------------------------------------------------------------------------------
  // The reference list of a derived metric.

  /** The first element of each referenced metric entry; `None` stands for `undefined`. */
  function FirstElements(lists: seq<seq<string>>): (r: seq<Option<string>>)
    ensures |r| == |lists|
    ensures forall i :: 0 <= i < |lists| ==> r[i] == if |lists[i]| > 0 then Some(lists[i][0]) else None
  {
    seq(|lists|, i requires 0 <= i < |lists| => if |lists[i]| > 0 then Some(lists[i][0]) else None)
  }

  /** `new Set(xs)` iterated in insertion order: the first occurrences. */
  function Dedup(xs: seq<Option<string>>): (r: seq<Option<string>>)
    ensures forall x :: x in r <==> x in xs
    ensures forall i, j :: 0 <= i < j < |r| ==> r[i] != r[j]
    ensures |r| <= |xs|
  {
    if |xs| == 0 then []
    else
      var prefix := Dedup(xs[..|xs| - 1]);
      assert xs == xs[..|xs| - 1] + [xs[|xs| - 1]];
      if xs[|xs| - 1] in prefix then prefix else prefix + [xs[|xs| - 1]]
  }

  /** How a reference appears in the template literal: `undefined` prints as such. */
  function RefText(ref: Option<string>): string {
    match ref
    case Some(n) => n
    case None => "undefined"
  }

  /** The SQL after each of `refs` in turn was replaced by `${ref}`. */
  function SubstituteRefs(sql: string, refs: seq<Option<string>>): string
    decreases |refs|
  {
    if |refs| == 0 then sql
    else
      var w := RefText(refs[|refs| - 1]);
      ReplaceWord(SubstituteRefs(sql, refs[..|refs| - 1]), w, "${" + w + "}")
  }

  /** The `forEach` loop over the references, rewriting `sql` on each step. */
  method SubstituteLoop(expression: string, refs: seq<Option<string>>) returns (sql: string)
    ensures sql == SubstituteRefs(expression, refs)
  {
    sql := expression;
    var i := 0;
    while i < |refs|
      invariant 0 <= i <= |refs|
      invariant sql == SubstituteRefs(expression, refs[..i])
    {
      var w := RefText(refs[i]);
      assert refs[..i + 1][..i] == refs[..i];
      sql := ReplaceWord(sql, w, "${" + w + "}");
      i := i + 1;
    }
    assert refs[..|refs|] == refs;
  }

  // ---------------------------------------------------------------------------------------
  // The metric.

  /** `/^[a-zA-Z0-9_]+$/.test(e)`. */
  predicate IsSingleColumnName(e: string) {
    |e| > 0 && AllWordChars(e)
  }

  function FilterClause(f: MetricFilter): string {
    "(${TABLE}." + f.field + " " + f.operator + " " + f.value + ")"
  }

  function FilterClauses(fs: seq<MetricFilter>): (r: seq<string>)
    ensures |r| == |fs|
    ensures forall i :: 0 <= i < |fs| ==> r[i] == FilterClause(fs[i])
  {
    seq(|fs|, i requires 0 <= i < |fs| => FilterClause(fs[i]))
  }

  /** Non-empty filters wrap the SQL in a `CASE WHEN` that keeps only the matching rows. */
  function WithFilters(sql: string, filters: Option<seq<MetricFilter>>): string {
    if filters.Some? && |filters.value| > 0 then
      "CASE WHEN " + Join(FilterClauses(filters.value), " AND ") + " THEN " + sql + " ELSE NULL END"
    else sql
  }

  function DerivedMissingExpression(name: string): string {
    "dbt derived metric \"" + name + "\" must have the expression field set"
  }

  function UnparseableMethod(m: DbtMetric): string {
    "Cannot parse metric '" + m.uniqueId + ": type " + m.calculationMethod + " is not a valid Lightdash metric type"
  }

  /** The references of a derived metric, deduplicated. */
  function ReferencedMetrics(m: DbtMetric): seq<Option<string>> {
    Dedup(FirstElements(m.metrics.GetOr([])))
  }

  /** The type and SQL before filters, or the `ParseError` the metric gets. */
  function TypeAndSql(env: Env, m: DbtMetric): Result<(MetricType, string), Exception> {
    if m.calculationMethod == "derived" then
      if !Truthy(m.expression) then Failure(ParseError(DerivedMissingExpression(m.name)))
      else Success((NumberMetric, SubstituteRefs(m.expression.value, ReferencedMetrics(m))))
    else
      match env.parseMetricType(m.calculationMethod)
      case None => Failure(ParseError(UnparseableMethod(m)))
      case Some(t) =>
        var sql :=
          if !Truthy(m.expression) then env.defaultSql(m.name)
          else if IsSingleColumnName(m.expression.value) then env.defaultSql(m.expression.value)
          else m.expression.value;
        Success((t, sql))
  }

  /** What `convertDbtMetricToLightdashMetric` returns or throws. */
  function LegacyMetricFor(env: Env, m: DbtMetric, tableName: string, tableLabel: string): Result<Metric, Exception> {
    var (t, sql) :- TypeAndSql(env, m);
    Success(Metric(m.name, OrElse(m.labelText, env.friendlyName(m.name)), tableName, tableLabel,
      WithFilters(sql, m.filters), t, m.description, m.hidden == Some(true),
      env.convertToGroups(m.groups, m.groupLabel), m.percentile, None))
  }

  /** `convertDbtMetricToLightdashMetric`, with its reassigned `sql` and `type`. */
  method ConvertDbtMetric(env: Env, m: DbtMetric, tableName: string, tableLabel: string)
    returns (r: Result<Metric, Exception>)
    ensures r == LegacyMetricFor(env, m, tableName, tableLabel)
  {
    var sql: string;
    var t: MetricType;
    if m.calculationMethod == "derived" {
      t := NumberMetric;
      var refs := ReferencedMetrics(m);
      if !Truthy(m.expression) {
        return Failure(ParseError(DerivedMissingExpression(m.name)));
      }
      sql := SubstituteLoop(m.expression.value, refs);
    } else {
      var parsed := env.parseMetricType(m.calculationMethod);
      if parsed.None? {
        return Failure(ParseError(UnparseableMethod(m)));
      }
      t := parsed.value;
      sql := env.defaultSql(m.name);
      if Truthy(m.expression) {
        if IsSingleColumnName(m.expression.value) {
          sql := env.defaultSql(m.expression.value);
        } else {
          sql := m.expression.value;
        }
      }
    }
    if m.filters.Some? && |m.filters.value| > 0 {
      sql := "CASE WHEN " + Join(FilterClauses(m.filters.value), " AND ") + " THEN " + sql + " ELSE NULL END";
    }
    r := Success(Metric(m.name, OrElse(m.labelText, env.friendlyName(m.name)), tableName, tableLabel,
      sql, t, m.description, m.hidden == Some(true), env.convertToGroups(m.groups, m.groupLabel),
      m.percentile, None));
  }

  /**
   * A derived metric needs an expression and is a number; any other calculation method must
   * parse. Both failures are `ParseError`s, and these are the only failures.
   */
  lemma LegacyMetricErrors(env: Env, m: DbtMetric, tableName: string, tableLabel: string)
    ensures var r := LegacyMetricFor(env, m, tableName, tableLabel);
      && (r.Failure? <==>
            (m.calculationMethod == "derived" && !Truthy(m.expression))
            || (m.calculationMethod != "derived" && env.parseMetricType(m.calculationMethod).None?))
      && (r.Failure? ==> r.error.ParseError?)
      && (r.Success? && m.calculationMethod == "derived" ==> r.value.metricType == NumberMetric)
      && (r.Success? && m.calculationMethod != "derived" ==> Some(r.value.metricType) == env.parseMetricType(m.calculationMethod))
      && (r.Success? ==> r.value.name == m.name && r.value.table == tableName && r.value.index.None?)
  {
  }

  /**
   * A non-derived metric selects the metric's own column without an expression, the named column
   * for a bare identifier, and the expression verbatim otherwise; filters wrap it.
   */
  lemma NonDerivedSql(env: Env, m: DbtMetric, tableName: string, tableLabel: string)
    requires m.calculationMethod != "derived" && env.parseMetricType(m.calculationMethod).Some?
    ensures var r := LegacyMetricFor(env, m, tableName, tableLabel);
      var e := m.expression;
      && r.Success?
      && (!Truthy(e) ==> r.value.sql == WithFilters(env.defaultSql(m.name), m.filters))
      && (Truthy(e) && IsSingleColumnName(e.value) ==> r.value.sql == WithFilters(env.defaultSql(e.value), m.filters))
      && (Truthy(e) && !IsSingleColumnName(e.value) ==> r.value.sql == WithFilters(e.value, m.filters))
  {
  }

  /** Without filters the SQL is left alone; with some it is their conjunction guarding it. */
  lemma FiltersWrap(sql: string, f: MetricFilter, fs: seq<MetricFilter>)
    ensures WithFilters(sql, None) == sql && WithFilters(sql, Some([])) == sql
    ensures WithFilters(sql, Some([f])) == "CASE WHEN " + FilterClause(f) + " THEN " + sql + " ELSE NULL END"
    ensures WithFilters(sql, Some([f] + fs)) ==
      "CASE WHEN " + FilterClause(f) + (if |fs| == 0 then "" else " AND " + Join(FilterClauses(fs), " AND "))
      + " THEN " + sql + " ELSE NULL END"
  {
    var cs := FilterClauses([f] + fs);
    assert cs == [FilterClause(f)] + FilterClauses(fs);
    JoinCons(FilterClause(f), FilterClauses(fs), " AND ");
    assert FilterClauses([f]) == [FilterClause(f)];
  }

  lemma JoinCons(x: string, ys: seq<string>, sep: string)
    ensures Join([x] + ys, sep) == x + (if |ys| == 0 then "" else sep + Join(ys, sep))
  {
    assert ([x] + ys)[1..] == ys;
  }

  lemma SingleRefSubstitution(w: string)
    requires Identifier(w)
    ensures SubstituteRefs(w, [Some(w)]) == "${" + w + "}"
  {
    assert [Some(w)][..0] == [];
    assert AllWordChars(w);
    WholeToken(w, w, "${" + w + "}");
  }

  lemma SingleReference(w: string)
    ensures Dedup(FirstElements([[w]])) == [Some(w)]
  {
    assert FirstElements([[w]]) == [Some(w)];
  }

  /** A derived metric referencing `w` once, as the whole expression, becomes `${w}`. */
  lemma DerivedSingleReference(env: Env, m: DbtMetric, tableName: string, tableLabel: string, w: string)
    requires m.calculationMethod == "derived" && m.expression == Some(w) && Identifier(w)
    requires m.metrics == Some([[w]]) && m.filters.None?
    ensures LegacyMetricFor(env, m, tableName, tableLabel).Success?
    ensures LegacyMetricFor(env, m, tableName, tableLabel).value.sql == "${" + w + "}"
  {
    SingleReference(w);
    SingleRefSubstitution(w);
    assert TypeAndSql(env, m) == Success((NumberMetric, "${" + w + "}"));
  }

  // ---------------------------------------------------------------------------------------
  // `modelCanUseMetric`. The source recurses without a cycle guard; `depth` is the call stack
  // left, and running out of it is the `RangeError` JavaScript throws.

  /** Position of the first metric called `name`. */
  function FindMetric(metrics: seq<DbtMetric>, name: Option<string>): (r: Option<nat>)
    ensures r.Some? ==> r.value < |metrics| && Some(metrics[r.value].name) == name
    ensures r.Some? ==> forall j :: 0 <= j < r.value ==> Some(metrics[j].name) != name
    ensures r.None? ==> forall j :: 0 <= j < |metrics| ==> Some(metrics[j].name) != name
  {
    if |metrics| == 0 then None
    else if Some(metrics[0].name) == name then Some(0)
    else match FindMetric(metrics[1..], name)
      case None => None
      case Some(i) => Some(i + 1)
  }

  /** The model named by a metric's first ref, if it has one (`modelRef[0]` may be undefined). */
  function RefModelName(m: DbtMetric): Option<string> {
    if m.refs.None? || |m.refs.value| == 0 then None
    else match m.refs.value[0]
      case V9Ref(n) => Some(n)
      case ListRef(parts) => if |parts| > 0 then Some(parts[0]) else None
  }

  /** The names a derived metric refers to, not deduplicated. */
  function MetricRefs(m: DbtMetric): seq<Option<string>> {
    FirstElements(m.metrics.GetOr([]))
  }

  function CanUseMetric(depth: nat, name: Option<string>, modelName: string, metrics: seq<DbtMetric>): Result<bool, Exception>
    decreases depth, 0, 0
  {
    if depth == 0 then Failure(PlainError(StackOverflowMessage))
    else match FindMetric(metrics, name)
      case None => Success(false)
      case Some(i) =>
        var m := metrics[i];
        if RefModelName(m) == Some(modelName) then Success(true)
        else if m.calculationMethod == "derived" then AllUsable(depth - 1, MetricRefs(m), modelName, metrics)
        else Success(false)
  }

  /** `names.every(n => modelCanUseMetric(n, …))`, stopping at the first false. */
  function AllUsable(depth: nat, names: seq<Option<string>>, modelName: string, metrics: seq<DbtMetric>): Result<bool, Exception>
    decreases depth, 1, |names|
  {
    if |names| == 0 then Success(true)
    else
      var first :- CanUseMetric(depth, names[0], modelName, metrics);
      if !first then Success(false) else AllUsable(depth, names[1..], modelName, metrics)
  }

  /**
   * An unknown name is unusable; a metric whose first ref names the model is usable; a derived
   * metric is usable exactly when all its references are; any other metric is unusable.
   */
  lemma CanUseCases(depth: nat, name: string, modelName: string, metrics: seq<DbtMetric>)
    requires depth > 0
    ensures var r := CanUseMetric(depth, Some(name), modelName, metrics);
      var f := FindMetric(metrics, Some(name));
      && (f.None? ==> r == Success(false))
      && (f.Some? && RefModelName(metrics[f.value]) == Some(modelName) ==> r == Success(true))
      && ((f.Some? && RefModelName(metrics[f.value]) != Some(modelName) && metrics[f.value].calculationMethod == "derived")
            ==> r == AllUsable(depth - 1, MetricRefs(metrics[f.value]), modelName, metrics))
      && ((f.Some? && RefModelName(metrics[f.value]) != Some(modelName) && metrics[f.value].calculationMethod != "derived")
            ==> r == Success(false))
  {
  }

  /** `every`: true exactly when each name is usable, vacuously for none; a throw propagates. */
  lemma {:induction false} AllUsableEvery(depth: nat, names: seq<Option<string>>, modelName: string, metrics: seq<DbtMetric>)
    requires forall i :: 0 <= i < |names| ==> CanUseMetric(depth, names[i], modelName, metrics).Success?
    ensures AllUsable(depth, names, modelName, metrics).Success?
    ensures AllUsable(depth, names, modelName, metrics).value <==>
      forall i :: 0 <= i < |names| ==> CanUseMetric(depth, names[i], modelName, metrics).value
    decreases |names|
  {
    if |names| > 0 {
      AllUsableEvery(depth, names[1..], modelName, metrics);
      assert forall i :: 1 <= i < |names| ==> names[i] == names[1..][i - 1];
    }
  }

  /**
   * The stack bound only decides whether an answer is reached, never which: an answer reached
   * with some depth is the answer with any larger depth.
   */
  lemma {:induction false} CanUseMonotone(d: nat, e: nat, name: Option<string>, modelName: string, metrics: seq<DbtMetric>)
    requires d <= e && CanUseMetric(d, name, modelName, metrics).Success?
    ensures CanUseMetric(e, name, modelName, metrics) == CanUseMetric(d, name, modelName, metrics)
    decreases d, 0, 0
  {
    var f := FindMetric(metrics, name);
    if f.Some? && RefModelName(metrics[f.value]) != Some(modelName) && metrics[f.value].calculationMethod == "derived" {
      AllUsableMonotone(d - 1, e - 1, MetricRefs(metrics[f.value]), modelName, metrics);
    }
  }

  lemma {:induction false} AllUsableMonotone(d: nat, e: nat, names: seq<Option<string>>, modelName: string, metrics: seq<DbtMetric>)
    requires d <= e && AllUsable(d, names, modelName, metrics).Success?
    ensures AllUsable(e, names, modelName, metrics) == AllUsable(d, names, modelName, metrics)
    decreases d, 1, |names|
  {
    if |names| > 0 {
      CanUseMonotone(d, e, names[0], modelName, metrics);
      if CanUseMetric(d, names[0], modelName, metrics).value {
        AllUsableMonotone(d, e, names[1..], modelName, metrics);
      }
    }
  }

  /**
   * Without a cycle guard a derived metric that refers to itself and is not tied to the model
   * by its ref never gets an answer: the call stack always runs out.
   */
  lemma {:induction false} SelfReferenceOverflows(depth: nat, m: DbtMetric, modelName: string, metrics: seq<DbtMetric>)
    requires FindMetric(metrics, Some(m.name)) == Some(0) && metrics[0] == m
    requires m.calculationMethod == "derived" && RefModelName(m) != Some(modelName)
    requires m.metrics == Some([[m.name]])
    ensures CanUseMetric(depth, Some(m.name), modelName, metrics) == Failure(PlainError(StackOverflowMessage))
    decreases depth
  {
    if depth > 0 {
      assert MetricRefs(m) == [Some(m.name)];
      SelfReferenceOverflows(depth - 1, m, modelName, metrics);
    }
  }

  /** The only way `modelCanUseMetric` throws is by running out of call stack. */
  lemma {:induction false} CanUseFailure(depth: nat, name: Option<string>, modelName: string, metrics: seq<DbtMetric>)
    ensures CanUseMetric(depth, name, modelName, metrics).Failure? ==>
      CanUseMetric(depth, name, modelName, metrics).error == PlainError(StackOverflowMessage)
    decreases depth, 0, 0
  {
    var f := FindMetric(metrics, name);
    if depth > 0 && f.Some? && RefModelName(metrics[f.value]) != Some(modelName) && metrics[f.value].calculationMethod == "derived" {
      AllUsableFailure(depth - 1, MetricRefs(metrics[f.value]), modelName, metrics);
    }
  }

  lemma {:induction false} AllUsableFailure(depth: nat, names: seq<Option<string>>, modelName: string, metrics: seq<DbtMetric>)
    ensures AllUsable(depth, names, modelName, metrics).Failure? ==>
      AllUsable(depth, names, modelName, metrics).error == PlainError(StackOverflowMessage)
    decreases depth, 1, |names|
  {
    if |names| > 0 {
      CanUseFailure(depth, names[0], modelName, metrics);
      AllUsableFailure(depth, names[1..], modelName, metrics);
    }
  }

  /**
   * A rank on metric names that every reference of a derived metric not tied to the model lowers:
   * the references have no cycle, and the rank bounds how deep the recursion goes.
   */
  ghost predicate RanksReferences(rank: Option<string> -> nat, modelName: string, metrics: seq<DbtMetric>) {
    forall i, j ::
      (0 <= i < |metrics| && RefModelName(metrics[i]) != Some(modelName) && metrics[i].calculationMethod == "derived"
       && 0 <= j < |MetricRefs(metrics[i])|) ==> rank(MetricRefs(metrics[i])[j]) < rank(Some(metrics[i].name))
  }

  /**
   * Without a cycle among the references, `modelCanUseMetric` answers whenever the call stack is
   * deeper than the name's rank: the recursion ends before the stack runs out.
   */
  lemma {:induction false} CanUseTerminates(depth: nat, rank: Option<string> -> nat, name: Option<string>, modelName: string, metrics: seq<DbtMetric>)
    requires RanksReferences(rank, modelName, metrics)
    requires depth > rank(name)
    ensures CanUseMetric(depth, name, modelName, metrics).Success?
    decreases depth, 0, 0
  {
    var f := FindMetric(metrics, name);
    if f.Some? && RefModelName(metrics[f.value]) != Some(modelName) && metrics[f.value].calculationMethod == "derived" {
      var m := metrics[f.value];
      assert Some(m.name) == name;
      AllUsableTerminates(depth - 1, rank, MetricRefs(m), modelName, metrics);
    }
  }

  lemma {:induction false} AllUsableTerminates(depth: nat, rank: Option<string> -> nat, names: seq<Option<string>>, modelName: string, metrics: seq<DbtMetric>)
    requires RanksReferences(rank, modelName, metrics)
    requires forall k :: 0 <= k < |names| ==> depth > rank(names[k])
    ensures AllUsable(depth, names, modelName, metrics).Success?
    decreases depth, 1, |names|
  {
    if |names| > 0 {
      CanUseTerminates(depth, rank, names[0], modelName, metrics);
      assert forall k :: 0 <= k < |names[1..]| ==> names[1..][k] == names[k + 1];
      AllUsableTerminates(depth, rank, names[1..], modelName, metrics);
    }
  }
}
