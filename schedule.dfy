/**
 * The PARIS schedule parser (`parse_paris`): a lenient, line-oriented filter that
 * turns `duration_ms,value` lines into timing rows, skipping everything else, and
 * fails only when no line at all yields a row.
 */
module Schedule {
  import opened Wrappers
  import opened Text

  /** One timing row: a duration in milliseconds and an on/off value (1 means tone). */
  datatype Row = Row(durationMs: int, value: int)

  /** The parser's only error: the `ValueError` raised when no timing row was found. */
  datatype ParseError = NoTimingRows

  /** What every row the parser returns satisfies. */
  predicate ValidRow(row: Row) {
    row.durationMs >= 0 && (row.value == 0 || row.value == 1)
  }

  const HeaderPrefix: string := "duration_ms"

  /** A stripped line that is empty or a `#` comment. */
  predicate IsBlankOrComment(ln: string) {
    ln == [] || ln[0] == '#'
  }

  /** A stripped line taken for the header: its lower-cased text starts with `duration_ms`. */
  predicate IsHeader(ln: string) {
    StartsWith(Lower(ln), HeaderPrefix)
  }

  /** The comma-separated fields of a stripped line, each stripped. */
  function Fields(ln: string): seq<string> {
    StripAll(Split(ln, ','))
  }

  /** The value normalised to 0 or 1 (`1 if v else 0`). */
  function Normalise(v: int): (b: int)
    ensures b == 0 || b == 1
    ensures b == 0 <==> v == 0
  {
    if v != 0 then 1 else 0
  }

  /** The row one line contributes, or `None` when the loop body would `continue`. */
  function ParseLine(line: string): (r: Option<Row>)
    ensures r.Some? ==> ValidRow(r.value)
  {
    var ln := Strip(line);
    if IsBlankOrComment(ln) || IsHeader(ln) then None
    else
      var parts := Fields(ln);
      if |parts| != 2 then None
      else
        match (ParseInt(parts[0]), ParseInt(parts[1]))
        case (Some(d), Some(v)) => if d >= 0 then Some(Row(d, Normalise(v))) else None
        case _ => None
  }

  /** The rows a sequence of lines yields, in line order: a filter-map of `ParseLine`. */
  function Rows(lines: seq<string>): (r: seq<Row>)
    ensures |r| <= |lines|
  {
    FilterMap(ParseLine, lines)
  }

  function OptionSeq<U>(r: Option<U>): seq<U> {
    match r
    case Some(u) => [u]
    case None => []
  }

  /** `[f(x) for x in xs if f(x) is not None]`, keeping the order of `xs`. */
  function FilterMap<T, U>(f: T -> Option<U>, xs: seq<T>): (r: seq<U>)
    ensures |r| <= |xs|
  {
    if xs == [] then [] else OptionSeq(f(xs[0])) + FilterMap(f, xs[1..])
  }

  /**
   * `parse_paris` on the lines of a file: appends the row of every qualifying line,
   * then fails when none qualified.
   */
  method ParseParis(lines: seq<string>) returns (result: Result<seq<Row>, ParseError>)
    ensures result.Success? <==> Rows(lines) != []
    ensures result.Success? ==> result.value == Rows(lines)
    ensures result.Failure? ==> result.error == NoTimingRows
    ensures result.Success? ==> |result.value| > 0 && forall k :: 0 <= k < |result.value| ==> ValidRow(result.value[k])
  {
    var rows: seq<Row> := [];
    for i := 0 to |lines|
      invariant rows == Rows(lines[..i])
    {
      RowsStep(lines, i);
      var ln := Strip(lines[i]);
      if ln == [] || ln[0] == '#' {
        assert ParseLine(lines[i]).None?;
        continue;
      }
      if StartsWith(Lower(ln), HeaderPrefix) {
        assert ParseLine(lines[i]).None?;
        continue;
      }
      var parts := StripAll(Split(ln, ','));
      if |parts| != 2 {
        assert ParseLine(lines[i]).None?;
        continue;
      }
      var d := ParseInt(parts[0]);
      var v := ParseInt(parts[1]);
      if d.None? || v.None? {
        assert ParseLine(lines[i]).None?;
        continue;
      }
      var value := if v.value != 0 then 1 else 0;
      if d.value >= 0 {
        assert ParseLine(lines[i]) == Some(Row(d.value, value));
        rows := rows + [Row(d.value, value)];
      } else {
        assert ParseLine(lines[i]).None?;
      }
    }
    assert lines[..|lines|] == lines;
    if rows == [] {
      return Failure(NoTimingRows);
    }
    RowsValid(lines);
    return Success(rows);
  }

  lemma RowsStep(lines: seq<string>, i: nat)
    requires i < |lines|
    ensures Rows(lines[..i + 1]) == Rows(lines[..i]) + OptionSeq(ParseLine(lines[i]))
  {
    assert lines[..i + 1] == lines[..i] + [lines[i]];
    RowsAppend(lines[..i], [lines[i]]);
    FilterMapSingle(ParseLine, lines[i]);
  }

  // ---------------------------------------------------------------------
  // Properties of the filter
  // ---------------------------------------------------------------------

  /** A filter-map of concatenated inputs is the concatenation of their filter-maps. */
  lemma {:induction false} FilterMapAppend<T, U>(f: T -> Option<U>, a: seq<T>, b: seq<T>)
    ensures FilterMap(f, a + b) == FilterMap(f, a) + FilterMap(f, b)
  {
    if a == [] {
      assert a + b == b;
    } else {
      assert (a + b)[1..] == a[1..] + b;
      FilterMapAppend(f, a[1..], b);
    }
  }

  lemma FilterMapSingle<T, U>(f: T -> Option<U>, x: T)
    ensures FilterMap(f, [x]) == OptionSeq(f(x))
  {
    assert [x][1..] == [];
  }

  /** A filter-map is empty exactly when `f` rejects every element. */
  lemma {:induction false} FilterMapEmpty<T, U>(f: T -> Option<U>, xs: seq<T>)
    ensures FilterMap(f, xs) == [] <==> forall k :: 0 <= k < |xs| ==> f(xs[k]).None?
  {
    if xs != [] {
      FilterMapEmpty(f, xs[1..]);
      assert forall k :: 1 <= k < |xs| ==> xs[k] == xs[1..][k - 1];
    }
  }

  /** Every element of a filter-map is `f`'s value on some element of the input. */
  lemma {:induction false} FilterMapFrom<T, U>(f: T -> Option<U>, xs: seq<T>, k: nat)
    requires k < |FilterMap(f, xs)|
    ensures exists i :: 0 <= i < |xs| && f(xs[i]) == Some(FilterMap(f, xs)[k])
  {
    var head := OptionSeq(f(xs[0]));
    if k < |head| {
      assert f(xs[0]) == Some(FilterMap(f, xs)[k]);
    } else {
      FilterMapFrom(f, xs[1..], k - |head|);
      var i :| 0 <= i < |xs[1..]| && f(xs[1..][i]) == Some(FilterMap(f, xs[1..])[k - |head|]);
      assert f(xs[i + 1]) == Some(FilterMap(f, xs)[k]);
    }
  }

  /** Parsing is an order-preserving filter: the rows of concatenated inputs concatenate. */
  lemma RowsAppend(a: seq<string>, b: seq<string>)
    ensures Rows(a + b) == Rows(a) + Rows(b)
  {
    FilterMapAppend(ParseLine, a, b);
  }

  /** Every returned row has a non-negative duration and a value of 0 or 1. */
  lemma RowsValid(lines: seq<string>)
    ensures forall k :: 0 <= k < |Rows(lines)| ==> ValidRow(Rows(lines)[k])
  {
    forall k | 0 <= k < |Rows(lines)| ensures ValidRow(Rows(lines)[k]) {
      FilterMapFrom(ParseLine, lines, k);
      var i :| 0 <= i < |lines| && ParseLine(lines[i]) == Some(Rows(lines)[k]);
    }
  }

  /** The result is empty exactly when every line is skipped, which is when `parse_paris` raises. */
  lemma RowsEmpty(lines: seq<string>)
    ensures Rows(lines) == [] <==> forall k :: 0 <= k < |lines| ==> ParseLine(lines[k]).None?
  {
    FilterMapEmpty(ParseLine, lines);
  }

  /** A skipped line can be inserted anywhere without changing the result. */
  lemma SkippedLine(a: seq<string>, line: string, b: seq<string>)
    requires ParseLine(line).None?
    ensures Rows(a + [line] + b) == Rows(a) + Rows(b)
  {
    FilterMapAppend(ParseLine, a + [line], b);
    FilterMapAppend(ParseLine, a, [line]);
    FilterMapSingle(ParseLine, line);
  }

  /**
   * The skip rules of the loop body: blank lines, `#` comments, header lines and lines
   * without exactly two fields yield nothing; so do unparseable fields and negative durations.
   */
  lemma SkipRules(line: string)
    ensures var ln := Strip(line);
      (ln == [] || ln[0] == '#' || StartsWith(Lower(ln), HeaderPrefix) || |Split(ln, ',')| != 2) ==>
        ParseLine(line).None?
    ensures var ln := Strip(line); var parts := Fields(ln);
      |parts| == 2 && (ParseInt(parts[0]).None? || ParseInt(parts[1]).None? ||
                       (ParseInt(parts[0]).Some? && ParseInt(parts[0]).value < 0)) ==>
        ParseLine(line).None?
  {
  }

  /**
   * A line that yields a row is a stripped, non-comment, non-header line of exactly two
   * integer fields, the first non-negative; the row holds that duration and the
   * normalised value.
   */
  lemma AcceptedLine(line: string)
    requires ParseLine(line).Some?
    ensures var ln := Strip(line); var parts := Fields(ln); var row := ParseLine(line).value;
      ln != [] && ln[0] != '#' && !StartsWith(Lower(ln), HeaderPrefix) &&
      |parts| == 2 && ParseInt(parts[0]) == Some(row.durationMs) && row.durationMs >= 0 &&
      ParseInt(parts[1]).Some? && row.value == Normalise(ParseInt(parts[1]).value)
  {
  }

  /**
   * A data line `str(d),str(v)` yields the row `(d, 1 if v else 0)` when `d >= 0`, and is
   * skipped when the duration is negative.
   */
  lemma DataLine(d: int, v: int)
    ensures ParseLine(FormatInt(d) + "," + FormatInt(v)) ==
      if d >= 0 then Some(Row(d, Normalise(v))) else None
  {
    DecimalLine(FormatInt(d), FormatInt(v));
    ParseFormat(d);
    ParseFormat(v);
  }

  /** A line of two decimal fields is judged on its two fields alone. */
  lemma DecimalLine(a: string, b: string)
    requires IsDecimalText(a) && IsDecimalText(b)
    ensures ParseLine(a + "," + b) ==
      match (ParseInt(a), ParseInt(b))
      case (Some(d), Some(v)) => if d >= 0 then Some(Row(d, Normalise(v))) else None
      case _ => None
  {
    DecimalLineShape(a, b);
    DecimalFields(a, b);
  }

  lemma DecimalLineShape(a: string, b: string)
    requires IsDecimalText(a) && IsDecimalText(b)
    ensures var line := a + "," + b; Strip(line) == line && !IsBlankOrComment(line) && !IsHeader(line)
  {
    var line := a + "," + b;
    assert line[0] == a[0] && line[|line| - 1] == b[|b| - 1];
    assert Lower(line)[0] == LowerChar(a[0]);
    StripFixed(line);
  }

  lemma DecimalFields(a: string, b: string)
    requires IsDecimalText(a) && IsDecimalText(b)
    ensures Fields(a + "," + b) == [a, b]
  {
    assert ',' !in a by {
      forall k | 0 <= k < |a| ensures a[k] != ',' { }
    }
    assert ',' !in b by {
      forall k | 0 <= k < |b| ensures b[k] != ',' { }
    }
    TwoFields(a, b);
  }

  lemma TwoFields(a: string, b: string)
    requires ',' !in a && ',' !in b
    requires a == [] || (!IsSpace(a[0]) && !IsSpace(a[|a| - 1]))
    requires b == [] || (!IsSpace(b[0]) && !IsSpace(b[|b| - 1]))
    ensures Fields(a + "," + b) == [a, b]
  {
    assert Join([a, b], ',') == a + "," + b;
    SplitJoin([a, b], ',');
    StripFixed(a);
    StripFixed(b);
  }

  /**
   * The header test never hides a row: a line whose lower-cased text starts with
   * `duration_ms` has a first field that `int()` rejects, so the field checks alone
   * would skip it too.
   */
  lemma HeaderNeverHidesRow(line: string)
    requires StartsWith(Lower(Strip(line)), HeaderPrefix)
    ensures ParseInt(Fields(Strip(line))[0]).None?
  {
    var ln := Strip(line);
    assert ln[0] == 'd' || ln[0] == 'D' by {
      assert Lower(ln)[0] == 'd';
    }
    var fields := Split(ln, ',');
    var f := fields[0];
    assert f != [] && f[0] == ln[0] by {
      JoinFirst(fields, ',');
    }
    StripFirst(f);
  }

  /**
   * A line that starts with `duration_ms` is a header whatever follows, even when the
   * rest would make two integer fields, as in `duration_ms5,1`.
   */
  lemma HeaderLine(rest: string)
    ensures ParseLine(HeaderPrefix + rest).None?
  {
    HeaderKept(rest);
  }

  /** Stripping keeps the leading `duration_ms` of a line, so the line is still a header. */
  lemma HeaderKept(rest: string)
    ensures IsHeader(Strip(HeaderPrefix + rest))
  {
    var line := HeaderPrefix + rest;
    var n := |HeaderPrefix|;
    assert !IsSpace(line[0]) && !IsSpace(line[n - 1]);
    var ln := Strip(line);
    StripKeeps(line, n - 1);
    assert ln[..n] == line[..n] == HeaderPrefix;
    assert Lower(ln)[..n] == Lower(HeaderPrefix) == HeaderPrefix;
  }

  /** Stripping a string that starts with a non-space character keeps that first character. */
  lemma StripFirst(f: string)
    requires f != [] && !IsSpace(f[0])
    ensures Strip(f) != [] && Strip(f)[0] == f[0]
  {
    assert LeadingSpaces(f) == 0;
    assert !AllSpace(f);
  }

  lemma JoinFirst(fields: seq<string>, sep: char)
    requires |fields| > 0
    ensures fields[0] <= Join(fields, sep)
  {
  }
}
