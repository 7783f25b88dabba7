/**
 * The Postgres dialect and client helpers: the type-name table, metric and concatenation SQL,
 * string escaping, the catalog built from `information_schema` rows, result-field types and
 * the translation of an error position into a line and character.
 */
module Postgres {
  import opened Wrappers
  import opened JsText
  import opened Dicts
  import opened Fields
  import Catalog

  // ---------------------------------------------------------------------------------------
  // `mapFieldType`.

  const NumericTypeNames: seq<string> := ["decimal", "numeric", "integer", "money", "smallserial", "serial",
    "serial2", "serial4", "serial8", "bigserial", "int2", "int4", "int8", "bigint", "smallint", "float",
    "float4", "float8", "double precision", "real"]
  const TimeTypeNames: seq<string> := ["time", "timetz", "timestamp", "timestamptz", "time without time zone",
    "timestamp without time zone"]
  const BooleanTypeNames: seq<string> := ["boolean", "bool"]

  /** The dimension type of a Postgres type name; every name not listed is a string. */
  function MapFieldType(t: string): (r: DimensionType)
    ensures r == NUMBER <==> t in NumericTypeNames
    ensures r == DATE <==> t == "date"
    ensures r == TIMESTAMP <==> t in TimeTypeNames
    ensures r == BOOLEAN <==> t in BooleanTypeNames
    ensures r == STRING <==> t !in NumericTypeNames + TimeTypeNames + BooleanTypeNames + ["date"]
  {
    if t in NumericTypeNames then NumericOnly(t); NUMBER
    else if t == "date" then DateOnly(); DATE
    else if t in TimeTypeNames then TimeOnly(t); TIMESTAMP
    else if t in BooleanTypeNames then BOOLEAN
    else STRING
  }

  /** No numeric type name is a date, time or boolean one. */
  lemma NumericOnly(t: string)
    requires t in NumericTypeNames
    ensures t != "date" && t !in TimeTypeNames && t !in BooleanTypeNames
  {
  }

  lemma DateOnly()
    ensures "date" !in NumericTypeNames && "date" !in TimeTypeNames && "date" !in BooleanTypeNames
  {
  }

  /** No time type name is a boolean one. */
  lemma TimeOnly(t: string)
    requires t in TimeTypeNames
    ensures t !in BooleanTypeNames
  {
  }

  // ---------------------------------------------------------------------------------------
  // `PostgresSqlBuilder`.

  /**
   * `getMetricSql`. `hundredths(p)` renders the JavaScript number `p / 100`, and `baseSql` is
   * the base builder's rendering, used for every other metric type.
   */
  function MetricSql(sql: string, metric: Metric, hundredths: int -> string, baseSql: (string, Metric) -> string): (r: string)
    ensures metric.metricType == AverageMetric ==> r == "AVG(" + sql + "::DOUBLE PRECISION)"
    ensures metric.metricType == PercentileMetric ==> r == PercentileCont(hundredths(metric.percentile.GetOr(50)), sql)
    ensures metric.metricType == MedianMetric ==> r == PercentileCont("0.5", sql)
    ensures !(metric.metricType in {AverageMetric, PercentileMetric, MedianMetric}) ==> r == baseSql(sql, metric)
  {
    match metric.metricType
    case AverageMetric => "AVG(" + sql + "::DOUBLE PRECISION)"
    case PercentileMetric => PercentileCont(hundredths(metric.percentile.GetOr(50)), sql)
    case MedianMetric => PercentileCont("0.5", sql)
    case _ => baseSql(sql, metric)
  }

  /** The ordered-set aggregate both percentile forms render. */
  function PercentileCont(fraction: string, sql: string): string {
    "PERCENTILE_CONT(" + fraction + ") WITHIN GROUP (ORDER BY " + sql + ")"
  }

  /**
   * A median is the fiftieth percentile, which is also what a percentile metric without a
   * percentile computes.
   */
  lemma MedianIsDefaultPercentile(sql: string, metric: Metric, hundredths: int -> string, baseSql: (string, Metric) -> string)
    requires metric.metricType == MedianMetric && hundredths(50) == "0.5"
    ensures MetricSql(sql, metric, hundredths, baseSql) == MetricSql(sql, metric.(metricType := PercentileMetric, percentile := None), hundredths, baseSql)
    ensures MetricSql(sql, metric, hundredths, baseSql) == MetricSql(sql, metric.(metricType := PercentileMetric, percentile := Some(50)), hundredths, baseSql)
  {
  }

  /** `concatString(...args)`. */
  function ConcatString(args: seq<string>): string {
    "(" + Join(args, " || ") + ")"
  }

  lemma {:induction false} JoinSnoc(parts: seq<string>, sep: string, last: string)
    requires |parts| > 0
    ensures Join(parts + [last], sep) == Join(parts, sep) + sep + last
    decreases |parts|
  {
    if |parts| > 1 {
      assert (parts + [last])[1..] == parts[1..] + [last];
      JoinSnoc(parts[1..], sep, last);
    }
  }

  /** Concatenating one more operand appends ` || ` and the operand inside the parentheses. */
  lemma ConcatStringSnoc(args: seq<string>, last: string)
    requires |args| > 0
    ensures ConcatString(args + [last]) == "(" + Join(args, " || ") + " || " + last + ")"
  {
    JoinSnoc(args, " || ", last);
    Regroup("(", Join(args, " || "), " || ", last);
  }

  /** One operand is only parenthesised; no operands give `()`. */
  lemma ConcatStringSmall(a: string)
    ensures ConcatString([a]) == "(" + a + ")"
    ensures ConcatString([]) == "()"
  {
  }

  /**
   * `escapeString`: quotes and backslashes doubled, comments removed, NUL characters dropped.
   * `normalize` is `normalizeUnicode` and `stripComments` the two comment-removing regular
   * expressions.
   */
  function EscapeString(value: string, normalize: string -> string, stripComments: string -> string): (r: string)
    ensures '\0' !in r
  {
    ReplaceAllChar(stripComments(Doubled(normalize(value))), '\0', "")
  }

  /** The two `replaceAll`s: quotes doubled, then backslashes doubled. */
  function Doubled(s: string): string {
    ReplaceAllChar(ReplaceAllChar(s, '\'', "''"), '\\', "\\\\")
  }

  lemma {:induction false} ReplaceAbsent(s: string, c: char, rep: string)
    requires c !in s
    ensures ReplaceAllChar(s, c, rep) == s
    decreases |s|
  {
    if |s| > 0 {
      ReplaceAbsent(s[1..], c, rep);
      assert s == [s[0]] + s[1..];
    }
  }

  /** A value with nothing to escape, comments or NULs comes back unchanged. */
  lemma EscapePlain(value: string, normalize: string -> string, stripComments: string -> string)
    requires normalize(value) == value && stripComments(value) == value
    requires '\'' !in value && '\\' !in value && '\0' !in value
    ensures EscapeString(value, normalize, stripComments) == value
  {
    ReplaceAbsent(value, '\'', "''");
    ReplaceAbsent(value, '\\', "\\\\");
    ReplaceAbsent(value, '\0', "");
  }

  /** Reads doubled `c`s back as single ones: the inverse of doubling. */
  function Undouble(s: string, c: char): string
    decreases |s|
  {
    if |s| == 0 then ""
    else if |s| >= 2 && s[0] == c && s[1] == c then [c] + Undouble(s[2..], c)
    else [s[0]] + Undouble(s[1..], c)
  }

  /** Doubling `c` is undone by reading pairs back, so no information is lost. */
  lemma {:induction false} UndoubleDoubled(s: string, c: char)
    ensures Undouble(ReplaceAllChar(s, c, [c, c]), c) == s
    decreases |s|
  {
    if |s| > 0 {
      var rest := ReplaceAllChar(s[1..], c, [c, c]);
      UndoubleDoubled(s[1..], c);
      if s[0] == c {
        assert ([c, c] + rest)[2..] == rest;
      } else {
        assert ([s[0]] + rest)[1..] == rest;
      }
      assert s == [s[0]] + s[1..];
    }
  }

  lemma {:induction false} ReplaceKeepsAbsent(s: string, c: char, rep: string, d: char)
    requires d !in s && d !in rep
    ensures d !in ReplaceAllChar(s, c, rep)
    decreases |s|
  {
    if |s| > 0 {
      ReplaceKeepsAbsent(s[1..], c, rep, d);
    }
  }

  /**
   * When normalising the value and removing comments from its doubled form change nothing and the
   * value holds no NUL, undoing the backslash doubling and then the quote doubling gives the value back.
   */
  lemma EscapeRoundTrip(value: string, normalize: string -> string, stripComments: string -> string)
    requires normalize(value) == value
    requires stripComments(Doubled(value)) == Doubled(value)
    requires '\0' !in value
    ensures Undouble(Undouble(EscapeString(value, normalize, stripComments), '\\'), '\'') == value
  {
    var quoted := ReplaceAllChar(value, '\'', "''");
    var slashed := ReplaceAllChar(quoted, '\\', "\\\\");
    ReplaceKeepsAbsent(value, '\'', "''", '\0');
    ReplaceKeepsAbsent(quoted, '\\', "\\\\", '\0');
    ReplaceAbsent(slashed, '\0', "");
    assert EscapeString(value, normalize, stripComments) == slashed;
    UndoubleDoubled(quoted, '\\');
    UndoubleDoubled(value, '\'');
  }

  // ---------------------------------------------------------------------------------------
  // `parseInt(position, 10)`.

  /** The characters JavaScript trims and `\s` matches: white space and line terminators. */
  predicate IsJsSpace(c: char) {
    c == '\t' || c == '\n' || c == '\U{B}' || c == '\U{C}' || c == '\r' || c == ' ' || c == '\U{A0}'
    || c == '\U{1680}' || ('\U{2000}' <= c <= '\U{200A}') || c == '\U{2028}' || c == '\U{2029}'
    || c == '\U{202F}' || c == '\U{205F}' || c == '\U{3000}' || c == '\U{FEFF}'
  }

  predicate IsDigit(c: char) {
    '0' <= c <= '9'
  }

  /** The end of the longest run of characters satisfying `p` that starts at `j`. */
  function RunEnd(s: string, j: nat, p: char -> bool): (e: nat)
    requires j <= |s|
    ensures j <= e <= |s|
    ensures forall k :: j <= k < e ==> p(s[k])
    ensures e == |s| || !p(s[e])
    decreases |s| - j
  {
    if j == |s| || !p(s[j]) then j else RunEnd(s, j + 1, p)
  }

  /** A run is maximal in exactly one place. */
  lemma {:induction false} RunEndUnique(s: string, j: nat, p: char -> bool, e: nat)
    requires j <= e <= |s|
    requires forall k :: j <= k < e ==> p(s[k])
    requires e == |s| || !p(s[e])
    ensures RunEnd(s, j, p) == e
    decreases e - j
  {
    if j < e {
      RunEndUnique(s, j + 1, p, e);
    }
  }

  /** The number a string of decimal digits denotes. */
  function DigitsValue(s: string): nat
    requires forall k :: 0 <= k < |s| ==> IsDigit(s[k])
    decreases |s|
  {
    if |s| == 0 then 0
    else
      assert IsDigit(s[|s| - 1]);
      DigitsValue(s[..|s| - 1]) * 10 + (s[|s| - 1] as int - '0' as int)
  }

  /**
   * `parseInt(s, 10)`: leading white space is skipped, then an optional sign, then the
   * longest run of digits; `None` is `NaN`, when there is no digit. A negative zero is 0.
   */
  function ParseInt(s: string): (r: Option<int>)
    ensures r.Some? ==> exists k :: 0 <= k < |s| && IsDigit(s[k])
  {
    var start := RunEnd(s, 0, IsJsSpace);
    var negative := start < |s| && s[start] == '-';
    var first := if start < |s| && (s[start] == '-' || s[start] == '+') then start + 1 else start;
    var end := RunEnd(s, first, IsDigit);
    if end == first then None
    else
      assert IsDigit(s[first]);
      var digits := s[first..end];
      assert forall k :: 0 <= k < |digits| ==> IsDigit(digits[k]) by {
        forall k | 0 <= k < |digits| ensures IsDigit(digits[k]) {
          assert digits[k] == s[first + k];
        }
      }
      var n := DigitsValue(digits);
      var v: int := if negative then -(n as int) else n;
      Some(v)
  }

  /** The decimal digits of a natural number, without leading zeros. */
  function Decimal(n: nat): (r: string)
    ensures |r| > 0 && forall k :: 0 <= k < |r| ==> IsDigit(r[k])
  {
    var d := ['0' + (n % 10) as char];
    if n < 10 then d else Decimal(n / 10) + d
  }

  lemma {:induction false} DecimalValue(n: nat)
    ensures DigitsValue(Decimal(n)) == n
  {
    var d := ['0' + (n % 10) as char];
    if n >= 10 {
      DecimalValue(n / 10);
      var r := Decimal(n / 10) + d;
      assert r[..|r| - 1] == Decimal(n / 10);
    } else {
      assert d[..0] == [];
    }
  }

  /** Reading back a rendered position gives the position; so does a signed rendering. */
  lemma ParseIntDecimal(n: nat)
    ensures ParseInt(Decimal(n)) == Some(n)
    ensures ParseInt("-" + Decimal(n)) == Some(-(n as int))
  {
    ParseUnsigned(n);
    ParseNegative(n);
  }

  lemma ParseUnsigned(n: nat)
    ensures ParseInt(Decimal(n)) == Some(n)
  {
    var s := Decimal(n);
    DecimalValue(n);
    assert !IsJsSpace(s[0]);
    RunEndUnique(s, 0, IsJsSpace, 0);
    RunEndUnique(s, 0, IsDigit, |s|);
    assert s[0..|s|] == s;
  }

  lemma ParseNegative(n: nat)
    ensures ParseInt("-" + Decimal(n)) == Some(-(n as int))
  {
    var s := Decimal(n);
    DecimalValue(n);
    SignedScan(s);
  }

  /** Behind a minus sign, the scan reads the whole run of digits. */
  lemma SignedScan(s: string)
    requires |s| > 0 && forall k :: 0 <= k < |s| ==> IsDigit(s[k])
    ensures var t := "-" + s;
      RunEnd(t, 0, IsJsSpace) == 0 && RunEnd(t, 1, IsDigit) == |t| && t[1..|t|] == s
  {
    var t := "-" + s;
    assert !IsJsSpace(t[0]);
    RunEndUnique(t, 0, IsJsSpace, 0);
    assert forall k :: 1 <= k < |t| ==> t[k] == s[k - 1];
    RunEndUnique(t, 1, IsDigit, |t|);
    assert t[1..|t|] == s;
  }

  /** A position with no digit at all is not a number. */
  lemma ParseIntNoDigits(s: string)
    requires forall k :: 0 <= k < |s| ==> !IsDigit(s[k])
    ensures ParseInt(s).None?
  {
  }

  // ---------------------------------------------------------------------------------------
  // `getErrorLineAndCharPosition`.

  /** The characters the lines take up, each counted with its newline. */
  function Span(lines: seq<string>): nat
    decreases |lines|
  {
    if |lines| == 0 then 0 else Span(lines[..|lines| - 1]) + Utf16Length(lines[|lines| - 1]) + 1
  }

  /**
   * The line and character of position `p`, found from the first line by moving the
   * position back past each line that ends before it.
   */
  function Locate(lines: seq<string>, p: int): Option<(int, int)>
    decreases |lines|
  {
    if |lines| == 0 then None
    else if p <= Utf16Length(lines[0]) + 1 then Some((1, p))
    else match Locate(lines[1..], p - Utf16Length(lines[0]) - 1)
      case None => None
      case Some((l, c)) => Some((l + 1, c))
  }

  /** `getErrorLineAndCharPosition(queryString, position)`. */
  method GetErrorLineAndCharPosition(queryString: string, position: Option<string>) returns (r: Option<(int, int)>)
    ensures !Truthy(position) ==> r.None?
    ensures Truthy(position) && ParseInt(position.value).None? ==> r.None?
    ensures Truthy(position) && ParseInt(position.value).Some? ==> r == Locate(Split(queryString, '\n'), ParseInt(position.value).value)
  {
    if !Truthy(position) {
      return None;
    }
    var parsed := ParseInt(position.value);
    if parsed.None? {
      return None;
    }
    r := LocateInLines(Split(queryString, '\n'), parsed.value);
  }

  /** The `for` loop of `getErrorLineAndCharPosition`, moving the count on by each line and its newline. */
  method LocateInLines(lines: seq<string>, p: int) returns (r: Option<(int, int)>)
    ensures r == Locate(lines, p)
  {
    var count := 0;
    var i := 0;
    ShiftedZero(Locate(lines, p));
    assert lines[0..] == lines;
    while i < |lines|
      invariant 0 <= i <= |lines|
      invariant count == Span(lines[..i])
      invariant Locate(lines, p) == Shifted(Locate(lines[i..], p - count), i)
    {
      var next := count + Utf16Length(lines[i]) + 1;
      if p <= next {
        LocateHere(lines, i, p - count);
        return Some((i + 1, p - count));
      }
      LocateStep(lines, i, p - count);
      SpanSnoc(lines, i);
      count := next;
      i := i + 1;
    }
    assert lines[i..] == [];
    return None;
  }

  /** Past line `i`, the search goes on from the next line, one line further down. */
  lemma LocateStep(lines: seq<string>, i: nat, q: int)
    requires i < |lines| && q > Utf16Length(lines[i]) + 1
    ensures Shifted(Locate(lines[i..], q), i) == Shifted(Locate(lines[i + 1..], q - Utf16Length(lines[i]) - 1), i + 1)
  {
    assert lines[i..][1..] == lines[i + 1..];
  }

  /** Within line `i`, the location is on that line. */
  lemma LocateHere(lines: seq<string>, i: nat, q: int)
    requires i < |lines| && q <= Utf16Length(lines[i]) + 1
    ensures Shifted(Locate(lines[i..], q), i) == Some((i + 1, q))
  {
    assert lines[i..][0] == lines[i];
  }

  lemma ShiftedZero(r: Option<(int, int)>)
    ensures Shifted(r, 0) == r
  {
  }

  lemma SpanSnoc(lines: seq<string>, i: nat)
    requires i < |lines|
    ensures Span(lines[..i + 1]) == Span(lines[..i]) + Utf16Length(lines[i]) + 1
  {
    assert lines[..i + 1][..i] == lines[..i];
  }

  /** A location `n` lines further down. */
  function Shifted(r: Option<(int, int)>, n: int): Option<(int, int)> {
    match r
    case None => None
    case Some((l, c)) => Some((l + n, c))
  }

  /** A span grows with every line. */
  lemma {:induction false} SpanMonotone(lines: seq<string>, i: nat, j: nat)
    requires i <= j <= |lines|
    ensures Span(lines[..i]) + (j - i) <= Span(lines[..j])
    decreases j - i
  {
    if i < j {
      SpanMonotone(lines, i, j - 1);
      assert lines[..j][..j - 1] == lines[..j - 1];
    }
  }

  lemma {:induction false} SpanCons(lines: seq<string>, i: nat)
    requires i < |lines|
    ensures Span(lines[..i + 1]) == Utf16Length(lines[0]) + 1 + Span(lines[1..][..i])
    decreases i
  {
    if i == 0 {
      assert lines[..1][..0] == [];
    } else {
      SpanCons(lines, i - 1);
      assert lines[..i + 1][..i] == lines[..i];
      assert lines[1..][..i][..i - 1] == lines[1..][..i - 1];
    }
  }

  /**
   * The location is the first line whose span reaches the position, and the character is
   * the position less the characters of the lines before it; there is none exactly when
   * the position lies beyond all lines.
   */
  lemma {:induction false} LocateMeaning(lines: seq<string>, p: int)
    requires |lines| > 0 || p > 0
    ensures Locate(lines, p).None? <==> p > Span(lines)
    ensures Locate(lines, p).Some? ==>
      var (line, ch) := Locate(lines, p).value;
      1 <= line <= |lines| && ch == p - Span(lines[..line - 1]) && p <= Span(lines[..line])
      && (line == 1 || ch > 0)
    decreases |lines|
  {
    if |lines| > 0 {
      assert lines[..|lines|] == lines;
      assert lines[..0] == [];
      assert lines[..1][..0] == [];
      if p > Utf16Length(lines[0]) + 1 {
        var q := p - Utf16Length(lines[0]) - 1;
        LocateMeaning(lines[1..], q);
        SpanCons(lines, |lines| - 1);
        assert lines[1..][..|lines| - 1] == lines[1..];
        assert Span(lines) == Utf16Length(lines[0]) + 1 + Span(lines[1..]);
        assert Locate(lines, p) == Shifted(Locate(lines[1..], q), 1);
        match Locate(lines[1..], q)
        case None =>
        case Some((l, c)) =>
          SpanCons(lines, l);
          if l > 1 {
            SpanCons(lines, l - 1);
          } else {
            assert lines[1..][..0] == [];
          }
      } else {
        SpanMonotone(lines, 1, |lines|);
      }
    }
  }

  /** Splitting at newlines gives lines spanning the query and one character more. */
  lemma {:induction false} SplitSpan(q: string)
    ensures Span(Split(q, '\n')) == Utf16Length(q) + 1
    decreases |q|
  {
    if |q| > 0 {
      SplitSpan(q[1..]);
      var rest := Split(q[1..], '\n');
      if q[0] == '\n' {
        SpanPrepend([""], rest);
      } else {
        Utf16Cons(q[0], rest[0]);
        SpanPrepend([[q[0]] + rest[0]], rest[1..]);
        SpanPrepend([rest[0]], rest[1..]);
        assert [rest[0]] + rest[1..] == rest;
      }
    }
  }

  lemma {:induction false} SpanPrepend(a: seq<string>, b: seq<string>)
    requires |a| == 1
    ensures Span(a + b) == Utf16Length(a[0]) + 1 + Span(b)
    decreases |b|
  {
    if |b| == 0 {
      assert a + b == a;
      assert a[..0] == [];
    } else {
      var n := |b| - 1;
      SpanPrepend(a, b[..n]);
      assert (a + b)[..|a + b| - 1] == a + b[..n];
    }
  }

  /** A position is located exactly when it is at most one past the end of the query. */
  lemma LocatedWithinQuery(q: string, p: int)
    ensures Locate(Split(q, '\n'), p).Some? <==> p <= Utf16Length(q) + 1
  {
    SplitSpan(q);
    LocateMeaning(Split(q, '\n'), p);
  }

  /**
   * Lines are measured in UTF-16 code units: a first line holding one character beyond U+FFFF
   * takes three positions with its newline, so position 3 is still on it, while after a
   * one-character line it is on the second.
   */
  lemma SurrogatePairExample()
    ensures Locate(Split("\U{1F600}\nx", '\n'), 3) == Some((1, 3))
    ensures Locate(Split("a\nx", '\n'), 3) == Some((2, 1))
  {
    var second := Split("\nx", '\n');
    assert second == ["", "x"] by {
      SplitHead('x', "");
      assert ['x'] + "" == "x";
      SplitHead('\n', "x");
      assert ['\n'] + "x" == "\nx";
    }
    SplitHead('\U{1F600}', "\nx");
    assert ['\U{1F600}'] + "\nx" == "\U{1F600}\nx";
    SplitHead('a', "\nx");
    assert ['a'] + "\nx" == "a\nx";
    Utf16Cons('\U{1F600}', "");
    Utf16Cons('a', "");
    assert ['\U{1F600}'] + "" == "\U{1F600}" && ['a'] + "" == "a";
    assert ["a", "x"][1..] == ["x"];
  }

  lemma SplitHead(c: char, t: string)
    ensures Split([c] + t, '\n') ==
      if c == '\n' then [""] + Split(t, '\n') else [[c] + Split(t, '\n')[0]] + Split(t, '\n')[1..]
  {
    assert ([c] + t)[1..] == t;
  }

  // ---------------------------------------------------------------------------------------
  // `parseError`.

  predicate IsNameChar(c: char) {
    ('a' <= c <= 'z') || ('A' <= c <= 'Z') || c == '_'
  }

  /**
   * Whether `/(?:WITH\s+[a-zA-Z_]+\s+AS\s*\()\s*?/i` matches at position `i`. Each part
   * of the pattern is followed by a character the part cannot take, so taking every run
   * greedily matches exactly when the pattern does.
   */
  predicate WithClauseAt(q: string, i: nat)
    requires i <= |q|
  {
    i + 4 <= |q| && Lower(q[i..i + 4]) == "with"
    && var a := RunEnd(q, i + 4, IsJsSpace);
    a > i + 4
    && var b := RunEnd(q, a, IsNameChar);
    b > a
    && var c := RunEnd(q, b, IsJsSpace);
    c > b && c + 2 <= |q| && Lower(q[c..c + 2]) == "as"
    && var d := RunEnd(q, c + 2, IsJsSpace);
    d < |q| && q[d] == '('
  }

  /**
   * The pattern's shape: `with` in any case, white space, a name, white space, `as` in any
   * case, optional white space and an opening parenthesis at `d`.
   */
  ghost predicate WithShape(q: string, i: int, a: int, b: int, c: int, d: int) {
    0 <= i && i + 4 < a < b < c && c + 2 <= d < |q|
    && Lower(q[i..i + 4]) == "with"
    && (forall k :: i + 4 <= k < a ==> IsJsSpace(q[k]))
    && (forall k :: a <= k < b ==> IsNameChar(q[k]))
    && (forall k :: b <= k < c ==> IsJsSpace(q[k]))
    && Lower(q[c..c + 2]) == "as"
    && (forall k :: c + 2 <= k < d ==> IsJsSpace(q[k]))
    && q[d] == '('
  }

  /** The greedy scan finds the pattern exactly where the pattern's shape occurs. */
  lemma WithClauseAtShape(q: string, i: nat)
    requires i <= |q|
    ensures WithClauseAt(q, i) <==> exists a, b, c, d :: WithShape(q, i, a, b, c, d)
  {
    if WithClauseAt(q, i) {
      var a := RunEnd(q, i + 4, IsJsSpace);
      var b := RunEnd(q, a, IsNameChar);
      var c := RunEnd(q, b, IsJsSpace);
      var d := RunEnd(q, c + 2, IsJsSpace);
      assert WithShape(q, i, a, b, c, d);
    }
    if exists a, b, c, d :: WithShape(q, i, a, b, c, d) {
      var a, b, c, d :| WithShape(q, i, a, b, c, d);
      ShapeScans(q, i, a, b, c, d);
    }
  }

  lemma ShapeScans(q: string, i: nat, a: int, b: int, c: int, d: int)
    requires WithShape(q, i, a, b, c, d)
    ensures WithClauseAt(q, i)
  {
    NameAfterWith(q, i, a, b, c, d);
    AsAfterName(q, i, a, b, c, d);
    ScannedClause(q, i, a, b, c, d);
  }

  lemma NameAfterWith(q: string, i: nat, a: int, b: int, c: int, d: int)
    requires WithShape(q, i, a, b, c, d)
    ensures RunEnd(q, i + 4, IsJsSpace) == a && RunEnd(q, a, IsNameChar) == b
  {
    assert !IsJsSpace(q[a]) by {
      assert IsNameChar(q[a]);
    }
    SpaceRunEnds(q, i + 4, a);
    NameRunEnds(q, a, b);
  }

  lemma AsAfterName(q: string, i: nat, a: int, b: int, c: int, d: int)
    requires WithShape(q, i, a, b, c, d)
    ensures RunEnd(q, b, IsJsSpace) == c && RunEnd(q, c + 2, IsJsSpace) == d
  {
    assert !IsJsSpace(q[c]) by {
      assert LowerChar(q[c]) == Lower(q[c..c + 2])[0] == 'a';
    }
    SpaceRunEnds(q, b, c);
    SpaceRunEnds(q, c + 2, d);
  }

  lemma ScannedClause(q: string, i: nat, a: nat, b: nat, c: nat, d: nat)
    requires i + 4 <= |q| && Lower(q[i..i + 4]) == "with"
    requires i + 4 <= |q| && RunEnd(q, i + 4, IsJsSpace) == a > i + 4
    requires a <= |q| && RunEnd(q, a, IsNameChar) == b > a
    requires b <= |q| && RunEnd(q, b, IsJsSpace) == c > b
    requires c + 2 <= |q| && Lower(q[c..c + 2]) == "as"
    requires RunEnd(q, c + 2, IsJsSpace) == d < |q| && q[d] == '('
    ensures WithClauseAt(q, i)
  {
  }

  lemma SpaceRunEnds(q: string, j: nat, e: nat)
    requires j <= e < |q| && !IsJsSpace(q[e])
    requires forall k :: j <= k < e ==> IsJsSpace(q[k])
    ensures RunEnd(q, j, IsJsSpace) == e
  {
    RunEndUnique(q, j, IsJsSpace, e);
  }

  lemma NameRunEnds(q: string, j: nat, e: nat)
    requires j <= e < |q| && IsJsSpace(q[e])
    requires forall k :: j <= k < e ==> IsNameChar(q[k])
    ensures RunEnd(q, j, IsNameChar) == e
  {
    RunEndUnique(q, j, IsNameChar, e);
  }

  /** `query.match(...)` is truthy: the pattern matches somewhere from position `from` on. */
  function HasWithClause(q: string, from: nat): (r: bool)
    requires from <= |q|
    ensures r <==> exists i :: from <= i <= |q| && WithClauseAt(q, i)
    decreases |q| - from
  {
    WithClauseAt(q, from) || (from < |q| && HasWithClause(q, from + 1))
  }

  lemma WithClauseExamples()
    ensures HasWithClause("With t AS (", 0)
    ensures !HasWithClause("select", 0)
  {
    var q := "With t AS (";
    assert q[0..4] == "With";
    assert Lower(q[0..4]) == "with";
    assert q[4] == ' ' && q[5] == 't' && q[6] == ' ';
    assert q[7..9] == "AS";
    assert Lower(q[7..9]) == "as";
    assert q[9] == ' ' && q[10] == '(';
    assert WithShape(q, 0, 5, 6, 7, 10);
    WithClauseAtShape(q, 0);
  }

  /** A `pg.DatabaseError` as far as `parseError` reads it. */
  datatype DatabaseError = DatabaseError(message: Option<string>, position: Option<string>)

  /** `WarehouseQueryError(message, data)`. */
  datatype QueryError = QueryError(message: Option<string>, data: Option<ErrorData>)

  datatype ErrorData = ErrorData(lineNumber: int, charNumber: int)

  /** `parseError(error, query)`. */
  method ParseError(error: DatabaseError, query: string) returns (r: QueryError)
    ensures r.message == error.message
    ensures r.data.None? <==> (!Truthy(error.position) || ParseInt(error.position.value).None?
      || ParseInt(error.position.value).value > Utf16Length(query) + 1)
    ensures r.data.Some? ==>
      var located := Locate(Split(query, '\n'), ParseInt(error.position.value).value);
      located.Some?
      && r.data.value.charNumber == located.value.1
      && r.data.value.lineNumber == (if HasWithClause(query, 0) && located.value.0 > 1 then located.value.0 - 1 else located.value.0)
  {
    if !Truthy(error.position) {
      return QueryError(error.message, None);
    }
    var queryMatch := HasWithClause(query, 0);
    var positionObj := GetErrorLineAndCharPosition(query, error.position);
    if positionObj.None? {
      if ParseInt(error.position.value).Some? {
        LocatedWithinQuery(query, ParseInt(error.position.value).value);
      }
      return QueryError(error.message, None);
    }
    LocatedWithinQuery(query, ParseInt(error.position.value).value);
    var lineNumber := positionObj.value.0;
    var charNumber := positionObj.value.1;
    if queryMatch && lineNumber > 1 {
      lineNumber := lineNumber - 1;
    }
    return QueryError(error.message, Some(ErrorData(lineNumber, charNumber)));
  }

  /** The reported line is never before the first, and a wrapped query's line moves up by one. */
  lemma ReportedLine(query: string, p: int)
    requires p <= Utf16Length(query) + 1
    ensures Locate(Split(query, '\n'), p).Some?
    ensures 1 <= Locate(Split(query, '\n'), p).value.0 <= |Split(query, '\n')|
  {
    SplitSpan(query);
    LocateMeaning(Split(query, '\n'), p);
  }

  // ---------------------------------------------------------------------------------------
  // The catalog fold of `getCatalog`.

  /** One table the catalog is asked for. */
  datatype CatalogRequest = CatalogRequest(database: string, schema: string, table: string)

  /** One row of the `information_schema.columns` query. */
  datatype CatalogRow = CatalogRow(tableCatalog: string, tableSchema: string, tableName: string, columnName: string, dataType: string)

  /** `requests.find(...)` succeeds for the row. */
  predicate Requested(requests: seq<CatalogRequest>, row: CatalogRow) {
    exists k :: 0 <= k < |requests| && requests[k] == CatalogRequest(row.tableCatalog, row.tableSchema, row.tableName)
  }

  function FindRequest(requests: seq<CatalogRequest>, row: CatalogRow): (r: bool)
    ensures r <==> Requested(requests, row)
  {
    if |requests| == 0 then false
    else
      var rest := FindRequest(requests[1..], row);
      assert Requested(requests[1..], row) ==> Requested(requests, row) by {
        if Requested(requests[1..], row) {
          var k :| 0 <= k < |requests[1..]| && requests[1..][k] == CatalogRequest(row.tableCatalog, row.tableSchema, row.tableName);
          assert requests[k + 1] == requests[1..][k];
        }
      }
      assert Requested(requests, row) && requests[0] != CatalogRequest(row.tableCatalog, row.tableSchema, row.tableName) ==> Requested(requests[1..], row) by {
        if Requested(requests, row) && requests[0] != CatalogRequest(row.tableCatalog, row.tableSchema, row.tableName) {
          var k :| 0 <= k < |requests| && requests[k] == CatalogRequest(row.tableCatalog, row.tableSchema, row.tableName);
          assert requests[1..][k - 1] == requests[k];
        }
      }
      requests[0] == CatalogRequest(row.tableCatalog, row.tableSchema, row.tableName) || rest
  }

  /** The type at `catalog[db][schema][table][column]`, if every level is present. */
  function Lookup4(catalog: Catalog.WarehouseCatalog, db: string, schema: string, table: string, column: string): Option<DimensionType> {
    match Get(catalog, db)
    case None => None
    case Some(schemas) =>
      match Get(schemas, schema)
      case None => None
      case Some(tables) =>
        match Get(tables, table)
        case None => None
        case Some(columns) => Get(columns, column)
  }

  /** The nested assignment, creating missing levels as `{}`. */
  function SetColumn(catalog: Catalog.WarehouseCatalog, db: string, schema: string, table: string, column: string, t: DimensionType): Catalog.WarehouseCatalog {
    var schemas := Get(catalog, db).GetOr([]);
    var tables := Get(schemas, schema).GetOr([]);
    var columns := Get(tables, table).GetOr([]);
    Put(catalog, db, Put(schemas, schema, Put(tables, table, Put(columns, column, t))))
  }

  /** The assignment sets its own column and leaves every other column as it was. */
  lemma SetColumnLookup(catalog: Catalog.WarehouseCatalog, db: string, schema: string, table: string, column: string, t: DimensionType,
                        d: string, s: string, tb: string, col: string)
    ensures Lookup4(SetColumn(catalog, db, schema, table, column, t), d, s, tb, col)
      == if (d, s, tb, col) == (db, schema, table, column) then Some(t) else Lookup4(catalog, d, s, tb, col)
  {
    if d != db {
      SetColumnOtherDb(catalog, db, schema, table, column, t, d, s, tb, col);
    } else if s != schema {
      SetColumnOtherSchema(catalog, db, schema, table, column, t, s, tb, col);
    } else if tb != table {
      SetColumnOtherTable(catalog, db, schema, table, column, t, tb, col);
    } else {
      SetColumnSameTable(catalog, db, schema, table, column, t, col);
    }
  }

  lemma SetColumnOtherDb(catalog: Catalog.WarehouseCatalog, db: string, schema: string, table: string, column: string, t: DimensionType,
                         d: string, s: string, tb: string, col: string)
    requires d != db
    ensures Lookup4(SetColumn(catalog, db, schema, table, column, t), d, s, tb, col) == Lookup4(catalog, d, s, tb, col)
  {
    var schemas := Get(catalog, db).GetOr([]);
    var tables := Get(schemas, schema).GetOr([]);
    var columns := Get(tables, table).GetOr([]);
    var r := Put(catalog, db, Put(schemas, schema, Put(tables, table, Put(columns, column, t))));
    assert Get(r, d) == Get(catalog, d);
  }

  lemma SetColumnOtherSchema(catalog: Catalog.WarehouseCatalog, db: string, schema: string, table: string, column: string, t: DimensionType,
                             s: string, tb: string, col: string)
    requires s != schema
    ensures Lookup4(SetColumn(catalog, db, schema, table, column, t), db, s, tb, col) == Lookup4(catalog, db, s, tb, col)
  {
    var schemas := Get(catalog, db).GetOr([]);
    var tables := Get(schemas, schema).GetOr([]);
    var columns := Get(tables, table).GetOr([]);
    var schemas' := Put(schemas, schema, Put(tables, table, Put(columns, column, t)));
    var r := Put(catalog, db, schemas');
    assert Get(r, db) == Some(schemas');
    assert Get(schemas', s) == Get(schemas, s);
  }

  lemma SetColumnOtherTable(catalog: Catalog.WarehouseCatalog, db: string, schema: string, table: string, column: string, t: DimensionType,
                            tb: string, col: string)
    requires tb != table
    ensures Lookup4(SetColumn(catalog, db, schema, table, column, t), db, schema, tb, col) == Lookup4(catalog, db, schema, tb, col)
  {
    var schemas := Get(catalog, db).GetOr([]);
    var tables := Get(schemas, schema).GetOr([]);
    var columns := Get(tables, table).GetOr([]);
    var tables' := Put(tables, table, Put(columns, column, t));
    var schemas' := Put(schemas, schema, tables');
    var r := Put(catalog, db, schemas');
    assert Get(r, db) == Some(schemas');
    assert Get(schemas', schema) == Some(tables');
    assert Get(tables', tb) == Get(tables, tb);
  }

  lemma SetColumnSameTable(catalog: Catalog.WarehouseCatalog, db: string, schema: string, table: string, column: string, t: DimensionType,
                           col: string)
    ensures Lookup4(SetColumn(catalog, db, schema, table, column, t), db, schema, table, col)
      == if col == column then Some(t) else Lookup4(catalog, db, schema, table, col)
  {
    var schemas := Get(catalog, db).GetOr([]);
    var tables := Get(schemas, schema).GetOr([]);
    var columns := Get(tables, table).GetOr([]);
    var columns' := Put(columns, column, t);
    var tables' := Put(tables, table, columns');
    var schemas' := Put(schemas, schema, tables');
    var r := Put(catalog, db, schemas');
    assert Get(r, db) == Some(schemas');
    assert Get(schemas', schema) == Some(tables');
    assert Get(tables', table) == Some(columns');
  }

  /** The row names this column of a requested table. */
  predicate Kept(requests: seq<CatalogRequest>, row: CatalogRow, db: string, schema: string, table: string, column: string) {
    Requested(requests, row) && row.tableCatalog == db && row.tableSchema == schema && row.tableName == table && row.columnName == column
  }

  /** The type of the last kept row for the column, the one no later assignment overwrites. */
  function LastType(requests: seq<CatalogRequest>, rows: seq<CatalogRow>, db: string, schema: string, table: string, column: string): Option<DimensionType>
    decreases |rows|
  {
    if |rows| == 0 then None
    else if Kept(requests, rows[|rows| - 1], db, schema, table, column) then Some(MapFieldType(rows[|rows| - 1].dataType))
    else LastType(requests, rows[..|rows| - 1], db, schema, table, column)
  }

  /**
   * The catalog built from the rows: every column holds the mapped type of the last row for
   * it that matches a request exactly; no requests give `{}`.
   */
  method CatalogFromRows(requests: seq<CatalogRequest>, rows: seq<CatalogRow>) returns (catalog: Catalog.WarehouseCatalog)
    ensures |requests| == 0 ==> catalog == []
    ensures forall db, schema, table, column :: Lookup4(catalog, db, schema, table, column) == LastType(requests, rows, db, schema, table, column)
  {
    if |requests| == 0 {
      forall db, schema, table, column ensures Lookup4([], db, schema, table, column) == LastType(requests, rows, db, schema, table, column) {
        LastTypeNone(requests, rows, db, schema, table, column);
      }
      return [];
    }
    catalog := [];
    var i := 0;
    while i < |rows|
      invariant 0 <= i <= |rows|
      invariant forall db, schema, table, column :: Lookup4(catalog, db, schema, table, column) == LastType(requests, rows[..i], db, schema, table, column)
    {
      var row := rows[i];
      RowStep(requests, rows, i, catalog);
      if FindRequest(requests, row) {
        catalog := SetColumn(catalog, row.tableCatalog, row.tableSchema, row.tableName, row.columnName, MapFieldType(row.dataType));
      }
      i := i + 1;
    }
    assert rows[..|rows|] == rows;
  }

  /** One more row keeps the catalog equal to the last kept types. */
  lemma RowStep(requests: seq<CatalogRequest>, rows: seq<CatalogRow>, i: nat, catalog: Catalog.WarehouseCatalog)
    requires i < |rows|
    requires forall db, schema, table, column :: Lookup4(catalog, db, schema, table, column) == LastType(requests, rows[..i], db, schema, table, column)
    ensures var row := rows[i];
      var next := if Requested(requests, row)
        then SetColumn(catalog, row.tableCatalog, row.tableSchema, row.tableName, row.columnName, MapFieldType(row.dataType))
        else catalog;
      forall db, schema, table, column :: Lookup4(next, db, schema, table, column) == LastType(requests, rows[..i + 1], db, schema, table, column)
  {
    var row := rows[i];
    assert rows[..i + 1][..i] == rows[..i];
    assert rows[..i + 1][i] == row;
    if Requested(requests, row) {
      forall db, schema, table, column
        ensures Lookup4(SetColumn(catalog, row.tableCatalog, row.tableSchema, row.tableName, row.columnName, MapFieldType(row.dataType)), db, schema, table, column)
          == LastType(requests, rows[..i + 1], db, schema, table, column)
      {
        SetColumnLookup(catalog, row.tableCatalog, row.tableSchema, row.tableName, row.columnName, MapFieldType(row.dataType), db, schema, table, column);
      }
    }
  }

  /** A column none of whose rows is kept is absent. */
  lemma {:induction false} LastTypeNone(requests: seq<CatalogRequest>, rows: seq<CatalogRow>, db: string, schema: string, table: string, column: string)
    requires forall k :: 0 <= k < |rows| ==> !Kept(requests, rows[k], db, schema, table, column)
    ensures LastType(requests, rows, db, schema, table, column).None?
    decreases |rows|
  {
    if |rows| > 0 {
      var n := |rows| - 1;
      assert forall k :: 0 <= k < n ==> rows[..n][k] == rows[k];
      LastTypeNone(requests, rows[..n], db, schema, table, column);
    }
  }

  /** A kept row that no later kept row overrides decides the column's type. */
  lemma {:induction false} LastTypeIs(requests: seq<CatalogRequest>, rows: seq<CatalogRow>, k: nat, db: string, schema: string, table: string, column: string)
    requires k < |rows| && Kept(requests, rows[k], db, schema, table, column)
    requires forall j :: k < j < |rows| ==> !Kept(requests, rows[j], db, schema, table, column)
    ensures LastType(requests, rows, db, schema, table, column) == Some(MapFieldType(rows[k].dataType))
    decreases |rows|
  {
    var n := |rows| - 1;
    if k < n {
      assert rows[..n][k] == rows[k];
      assert forall j :: k < j < n ==> rows[..n][j] == rows[j];
      LastTypeIs(requests, rows[..n], k, db, schema, table, column);
    }
  }

  /** A row whose table was not requested never reaches the catalog. */
  lemma UnrequestedAbsent(requests: seq<CatalogRequest>, rows: seq<CatalogRow>, db: string, schema: string, table: string, column: string)
    requires CatalogRequest(db, schema, table) !in requests
    ensures LastType(requests, rows, db, schema, table, column).None?
  {
    LastTypeNone(requests, rows, db, schema, table, column);
  }

  // ---------------------------------------------------------------------------------------
  // `convertQueryResultFields`.

  /** The type identifiers of `pg.types.builtins` the conversion distinguishes. */
  datatype Builtins = Builtins(
    numeric: int, money: int, int2: int, int4: int, int8: int, float4: int, float8: int,
    date: int, time: int, timetz: int, timestamp: int, timestamptz: int, boolean: int)

  /** `convertDataTypeIdToDimensionType`: the first case that equals the identifier decides. */
  function ConvertDataTypeId(b: Builtins, id: int): (r: DimensionType)
    ensures r == NUMBER <==> id in [b.numeric, b.money, b.int2, b.int4, b.int8, b.float4, b.float8]
    ensures r == DATE <==> id !in [b.numeric, b.money, b.int2, b.int4, b.int8, b.float4, b.float8] && id == b.date
    ensures r == TIMESTAMP <==>
      id !in [b.numeric, b.money, b.int2, b.int4, b.int8, b.float4, b.float8, b.date] && id in [b.time, b.timetz, b.timestamp, b.timestamptz]
    ensures r == BOOLEAN <==>
      id !in [b.numeric, b.money, b.int2, b.int4, b.int8, b.float4, b.float8, b.date, b.time, b.timetz, b.timestamp, b.timestamptz] && id == b.boolean
    ensures r == STRING <==> id !in [b.numeric, b.money, b.int2, b.int4, b.int8, b.float4, b.float8, b.date, b.time, b.timetz, b.timestamp, b.timestamptz, b.boolean]
  {
    if id in [b.numeric, b.money, b.int2, b.int4, b.int8, b.float4, b.float8] then NUMBER
    else if id == b.date then DATE
    else if id in [b.time, b.timetz, b.timestamp, b.timestamptz] then TIMESTAMP
    else if id == b.boolean then BOOLEAN
    else STRING
  }

  /** A field of a query result: its name and `dataTypeID`. */
  datatype ResultField = ResultField(name: string, dataTypeId: int)

  function FieldNames(fields: seq<ResultField>): (r: seq<string>)
    ensures |r| == |fields| && forall i :: 0 <= i < |fields| ==> r[i] == fields[i].name
  {
    seq(|fields|, i requires 0 <= i < |fields| => fields[i].name)
  }

  function FieldTypes(b: Builtins, fields: seq<ResultField>): (r: seq<DimensionType>)
    ensures |r| == |fields| && forall i :: 0 <= i < |fields| ==> r[i] == ConvertDataTypeId(b, fields[i].dataTypeId)
  {
    seq(|fields|, i requires 0 <= i < |fields| => ConvertDataTypeId(b, fields[i].dataTypeId))
  }

  /** `convertQueryResultFields(fields)`: the reduce that assigns each field's type to its name. */
  function ConvertQueryResultFields(b: Builtins, fields: seq<ResultField>): Dict<DimensionType> {
    Assign(FieldNames(fields), FieldTypes(b, fields))
  }

  /**
   * One entry per distinct field name, and that entry holds the type of the last field
   * with the name.
   */
  lemma ResultFieldsLastWins(b: Builtins, fields: seq<ResultField>, i: nat)
    requires i < |fields|
    requires forall j :: i < j < |fields| ==> fields[j].name != fields[i].name
    ensures fields[i].name in Keys(ConvertQueryResultFields(b, fields))
    ensures Get(ConvertQueryResultFields(b, fields), fields[i].name) == Some(ConvertDataTypeId(b, fields[i].dataTypeId))
  {
    AssignLast(FieldNames(fields), FieldTypes(b, fields), i);
  }

  /** The keys are exactly the field names, each once. */
  lemma ResultFieldsKeys(b: Builtins, fields: seq<ResultField>, name: string)
    ensures name in Keys(ConvertQueryResultFields(b, fields)) <==> exists i :: 0 <= i < |fields| && fields[i].name == name
    ensures DistinctKeys(ConvertQueryResultFields(b, fields))
  {
    AssignKeys(FieldNames(fields), FieldTypes(b, fields), name);
    if name in FieldNames(fields) {
      var i :| 0 <= i < |fields| && FieldNames(fields)[i] == name;
    }
    AssignKeepsDistinct(FieldNames(fields), FieldTypes(b, fields));
  }
}
