/**
 * parse_financial_data: period detection with its fallback, then one pass
 * over the lines of the page that writes the numbers of each recognised
 * row into a table indexed by period and row label.
 *
 * The pass is specified by a left fold of Step over the lines (ParseLines)
 * and the method ParseFinancialData computes it with the source's loops.
 */
module Extract {
  import opened Wrappers
  import opened Chars
  import opened TextOps
  import opened Scan
  import opened Numbers
  import opened Labels

  /** The known row labels, in the order match_label tries them. */
  const RowLabels: seq<string> := [
    "Revenue from operations",
    "Other income",
    "Total income",
    "Cost of construction and development",
    "Changes in inventories of work-in-progress and finished properties",
    "Employee benefit expense",
    "Finance costs",
    "Depreciation and amortisation expenses",
    "Other expenses",
    "Total expenses",
    "Profit/loss before tax",
    "Current tax",
    "Deferred tax",
    "Profit/loss for the period/year",
    "Other comprehensive income/loss",
    "Total comprehensive income/loss for the period/year, net of tax"
  ]

  /** The periods used when the page shows fewer than MinPeriods dates. */
  const FallbackPeriods: seq<string> := [
    "Quarter ended 31 December 2024",
    "Quarter ended 30 September 2024",
    "Quarter ended 31 December 2023",
    "Year to date period ended 31 December 2024",
    "Year to date period ended 31 December 2023",
    "Year ended 31 March 2024"
  ]

  const MinPeriods: nat := 6

  const WarnPrefix: string := "[WARN] No label match for: "

  /** financial_data: period -> row label -> value. */
  type Table = map<string, map<string, real>>

  // ---------------------------------------------------------------------
  // Periods
  // ---------------------------------------------------------------------

  /**
   * The period columns of a page: every date the period pattern finds, in
   * text order and not truncated, or the fallback list when there are
   * fewer than six of them. Either way there are at least six.
   */
  function DetectPeriods(text: string): (ps: seq<string>)
    ensures |ps| >= MinPeriods
    ensures |FindAll(Period, text)| >= MinPeriods ==> ps == FindAll(Period, text)
    ensures |FindAll(Period, text)| < MinPeriods ==> ps == FallbackPeriods
  {
    var found := FindAll(Period, text);
    if |found| < MinPeriods then FallbackPeriods else found
  }

  /** A detected period is a date the pattern matched or one of the fallback columns. */
  lemma DetectedPeriodsAreDates(text: string, i: nat)
    requires i < |DetectPeriods(text)|
    ensures PeriodText(DetectPeriods(text)[i]) || DetectPeriods(text) == FallbackPeriods
  {
    var found := FindAll(Period, text);
    if |found| >= MinPeriods {
      assert Matches(Period, found[i]);
    }
  }

  /** A page without any date falls back to the fixed columns, starting with the latest quarter. */
  lemma NoDatesFallBack(text: string)
    requires forall q, e :: 0 <= q <= e <= |text| ==> !PeriodText(text[q..e])
    ensures DetectPeriods(text) == FallbackPeriods
    ensures DetectPeriods(text)[0] == "Quarter ended 31 December 2024"
  {
    FindAllEmpty(Period, text);
  }

  // ---------------------------------------------------------------------
  // The table
  // ---------------------------------------------------------------------

  function Lookup(data: Table, period: string, name: string): Option<real> {
    if period in data && name in data[period] then Some(data[period][name]) else None
  }

  /** financial_data[period][name] = v, creating the inner map when the period is new. */
  function Put(data: Table, period: string, name: string, v: real): Table {
    var inner := if period in data then data[period] else map[];
    data[period := inner[name := v]]
  }

  /**
   * After a Put, that one entry holds v and every other entry reads as
   * before; the period becomes a column and the name one of its rows.
   */
  lemma PutEffect(data: Table, period: string, name: string, v: real, q: string, l: string)
    ensures Put(data, period, name, v).Keys == data.Keys + {period}
    ensures Put(data, period, name, v)[period].Keys == (if period in data then data[period].Keys else {}) + {name}
    ensures Lookup(Put(data, period, name, v), q, l) == if q == period && l == name then Some(v) else Lookup(data, q, l)
  {
  }

  /** The position of the last occurrence of period among the first n columns. */
  function LastIndex(periods: seq<string>, period: string, n: nat): (r: Option<nat>)
    requires n <= |periods|
    ensures r.None? <==> forall j :: 0 <= j < n ==> periods[j] != period
    ensures r.Some? ==> r.value < n && periods[r.value] == period
                        && forall j :: r.value < j < n ==> periods[j] != period
  {
    if n == 0 then None
    else if periods[n - 1] == period then Some(n - 1)
    else LastIndex(periods, period, n - 1)
  }

  /** The first n iterations of the inner loop: value i goes to column i. */
  function WritePrefix(data: Table, periods: seq<string>, name: string, values: seq<real>, n: nat): Table
    requires n <= |periods| && n <= |values|
  {
    if n == 0 then data
    else Put(WritePrefix(data, periods, name, values, n - 1), periods[n - 1], name, values[n - 1])
  }

  /** The columns after writing a row: those there before and the first n periods. */
  lemma {:induction false} WritePrefixKeys(data: Table, periods: seq<string>, name: string, values: seq<real>, n: nat, q: string)
    requires n <= |periods| && n <= |values|
    ensures q in WritePrefix(data, periods, name, values, n) <==> q in data || q in periods[..n]
  {
    if n > 0 {
      WritePrefixKeys(data, periods, name, values, n - 1, q);
      PutEffect(WritePrefix(data, periods, name, values, n - 1), periods[n - 1], name, values[n - 1], q, name);
      assert periods[..n] == periods[..n - 1] + [periods[n - 1]];
    }
  }

  function Min(a: nat, b: nat): nat {
    if a < b then a else b
  }

  /** The whole inner loop: the values beyond the last column are dropped. */
  function WriteRow(data: Table, periods: seq<string>, name: string, values: seq<real>): Table {
    WritePrefix(data, periods, name, values, Min(|periods|, |values|))
  }

  /**
   * After writing a row, the entry for (q, l) is the value written last to
   * column q when l is the row's label and q is one of the first n columns,
   * and is what it was before otherwise.
   */
  lemma {:induction false} WritePrefixLookup(data: Table, periods: seq<string>, name: string, values: seq<real>,
                                             n: nat, q: string, l: string)
    requires n <= |periods| && n <= |values|
    ensures Lookup(WritePrefix(data, periods, name, values, n), q, l)
         == if l == name && LastIndex(periods, q, n).Some? then Some(values[LastIndex(periods, q, n).value])
            else Lookup(data, q, l)
  {
    if n > 0 {
      WritePrefixLookup(data, periods, name, values, n - 1, q, l);
      PutEffect(WritePrefix(data, periods, name, values, n - 1), periods[n - 1], name, values[n - 1], q, l);
    }
  }

  /** Writing a row adds no label but its own to any column. */
  lemma {:induction false} WritePrefixInnerKeys(data: Table, periods: seq<string>, name: string, values: seq<real>,
                                                n: nat, q: string, l: string)
    requires n <= |periods| && n <= |values|
    requires q in WritePrefix(data, periods, name, values, n)
    requires l in WritePrefix(data, periods, name, values, n)[q]
    ensures l == name || (q in data && l in data[q])
  {
    if n > 0 {
      var d := WritePrefix(data, periods, name, values, n - 1);
      PutEffect(d, periods[n - 1], name, values[n - 1], q, l);
      if q != periods[n - 1] || l != name {
        assert q in d && l in d[q];
        WritePrefixInnerKeys(data, periods, name, values, n - 1, q, l);
      }
    }
  }

  /**
   * The effect of one matched row: exactly the entries [periods[i]][name]
   * with i < min(#values, #periods) are written, a column listed twice
   * keeps the later value, and every other entry is unchanged.
   */
  lemma WriteRowEffect(data: Table, periods: seq<string>, name: string, values: seq<real>, q: string, l: string)
    ensures var n := Min(|periods|, |values|);
      Lookup(WriteRow(data, periods, name, values), q, l)
      == if l == name && LastIndex(periods, q, n).Some? then Some(values[LastIndex(periods, q, n).value])
         else Lookup(data, q, l)
  {
    WritePrefixLookup(data, periods, name, values, Min(|periods|, |values|), q, l);
  }

  /** Every column is a detected period and every row is a known label. */
  predicate WellKeyed(data: Table, periods: seq<string>, labels: seq<string>) {
    forall q :: q in data ==> q in periods && forall l :: l in data[q] ==> l in labels
  }

  lemma WriteRowWellKeyed(data: Table, periods: seq<string>, labels: seq<string>, name: string, values: seq<real>)
    requires WellKeyed(data, periods, labels) && name in labels
    ensures WellKeyed(WriteRow(data, periods, name, values), periods, labels)
  {
    var n := Min(|periods|, |values|);
    var r := WriteRow(data, periods, name, values);
    forall q | q in r ensures q in periods && forall l :: l in r[q] ==> l in labels {
      WritePrefixKeys(data, periods, name, values, n, q);
      forall l | l in r[q] ensures l in labels {
        WritePrefixInnerKeys(data, periods, name, values, n, q, l);
      }
    }
  }

  // ---------------------------------------------------------------------
  // One line
  // ---------------------------------------------------------------------

  /** clean_values: the value of each numeric token of the line, in order. */
  function LineValues(line: string): (vs: seq<real>)
    ensures vs == [] <==> forall i :: 0 <= i < |line| ==> !IsDigit(line[i])
  {
    NumberTokensIffDigit(line);
    var tokens := FindAll(Number, line);
    assert forall i :: 0 <= i < |tokens| ==> Matches(Number, tokens[i]);
    Values(tokens)
  }

  /** The table built so far and the warnings printed so far. */
  datatype State = State(data: Table, warnings: seq<string>)

  /** The text printed for a line with numbers but no matching label. */
  function Warning(line: string): string {
    WarnPrefix + Strip(line)
  }

  /** One iteration of the loop over the lines. */
  function Step(periods: seq<string>, labels: seq<string>, blocks: Matcher, st: State, line: string): State {
    if Skipped(line) then st else Record(periods, st, line, MatchLabel(line, labels, blocks))
  }

  /**
   * The two continue statements: blank lines and lines without a numeric
   * token, which are exactly the lines that are all whitespace or hold no
   * digit.
   */
  predicate Skipped(line: string)
    ensures Skipped(line) <==> AllSpace(line) || forall i :: 0 <= i < |line| ==> !IsDigit(line[i])
  {
    NumberTokensIffDigit(line);
    Strip(line) == [] || FindAll(Number, line) == []
  }

  /**
   * A line with numbers: its values go under the matched label, or a
   * warning is printed. The test is Python truthiness, so an empty label
   * counts as no match.
   */
  function Record(periods: seq<string>, st: State, line: string, matched: Option<string>): State {
    if matched.Some? && matched.value != "" then State(WriteRow(st.data, periods, matched.value, LineValues(line)), st.warnings)
    else State(st.data, st.warnings + [Warning(line)])
  }

  /** None of the known row labels is empty, so a matched label is always written to. */
  lemma RowLabelsNonEmpty(k: nat)
    requires k < |RowLabels|
    ensures RowLabels[k] != ""
  {
  }

  /** A line that is blank or holds no digit changes nothing and prints nothing. */
  lemma SkippedLine(periods: seq<string>, labels: seq<string>, blocks: Matcher, st: State, line: string)
    requires AllSpace(line) || forall i :: 0 <= i < |line| ==> !IsDigit(line[i])
    ensures Step(periods, labels, blocks, st, line) == st
  {
    NumberTokensIffDigit(line);
  }

  /**
   * A line with a number but no close label leaves the table alone and
   * prints exactly one warning, carrying the stripped line.
   */
  lemma UnmatchedLine(periods: seq<string>, labels: seq<string>, blocks: Matcher, st: State, line: string, i: nat)
    requires i < |line| && IsDigit(line[i])
    requires forall k :: 0 <= k < |labels| ==> !LabelClose(blocks, line, labels[k])
    ensures Step(periods, labels, blocks, st, line).data == st.data
    ensures Step(periods, labels, blocks, st, line).warnings == st.warnings + [WarnPrefix + Strip(line)]
  {
    NumberTokensIffDigit(line);
    assert !IsSpace(line[i]);
    assert !Skipped(line);
    assert MatchLabel(line, labels, blocks).None?;
  }

  /** Every known row label ends with a letter, so none has an empty key. */
  lemma RowLabelsHaveKeys(k: nat)
    requires k < |RowLabels|
    ensures Normalize(RowLabels[k]) != []
  {
    var s := RowLabels[k];
    assert IsLower(s[|s| - 1]);
    NormalizeOfLetterLast(s);
  }

  /**
   * With a matcher bounded as SequenceMatcher is, a line with a number but
   * no letter always prints its warning and leaves the table alone.
   */
  lemma LetterFreeLineWarns(periods: seq<string>, blocks: Matcher, st: State, line: string, i: nat)
    requires i < |line| && IsDigit(line[i])
    requires forall j :: 0 <= j < |line| ==> !IsUpper(line[j]) && !IsLower(line[j])
    requires Bounded(blocks)
    ensures Step(periods, RowLabels, blocks, st, line).data == st.data
    ensures Step(periods, RowLabels, blocks, st, line).warnings == st.warnings + [Warning(line)]
  {
    NormalizeOfNonLetters(line);
    forall k | 0 <= k < |RowLabels| ensures Normalize(RowLabels[k]) != [] {
      RowLabelsHaveKeys(k);
    }
    EmptyKeyUnmatched(line, RowLabels, blocks);
    UnmatchedLine(periods, RowLabels, blocks, st, line, i);
  }

  /**
   * A line with a number and a close label prints nothing and writes the
   * line's values under the first close label, column by column.
   */
  lemma MatchedLine(periods: seq<string>, labels: seq<string>, blocks: Matcher, st: State, line: string, i: nat, k: nat, q: string, l: string)
    requires i < |line| && IsDigit(line[i])
    requires k < |labels| && LabelClose(blocks, line, labels[k]) && labels[k] != ""
    requires forall j :: 0 <= j < k ==> !LabelClose(blocks, line, labels[j])
    ensures Step(periods, labels, blocks, st, line).warnings == st.warnings
    ensures var vs := LineValues(line); var n := Min(|periods|, |vs|);
      Lookup(Step(periods, labels, blocks, st, line).data, q, l)
      == if l == labels[k] && LastIndex(periods, q, n).Some? then Some(vs[LastIndex(periods, q, n).value])
         else Lookup(st.data, q, l)
  {
    NumberTokensIffDigit(line);
    assert !IsSpace(line[i]);
    assert !Skipped(line);
    FirstCloseIsMatched(line, labels, blocks, k);
    WriteRowEffect(st.data, periods, labels[k], LineValues(line), q, l);
  }

  /** A step prints nothing or exactly the warning for its line. */
  lemma StepWarnings(periods: seq<string>, labels: seq<string>, blocks: Matcher, st: State, line: string)
    ensures Step(periods, labels, blocks, st, line).warnings == st.warnings
         || Step(periods, labels, blocks, st, line).warnings == st.warnings + [Warning(line)]
  {
  }

  lemma StepWellKeyed(periods: seq<string>, labels: seq<string>, blocks: Matcher, st: State, line: string)
    requires WellKeyed(st.data, periods, labels)
    ensures WellKeyed(Step(periods, labels, blocks, st, line).data, periods, labels)
  {
    if !Skipped(line) {
      var r := MatchLabel(line, labels, blocks);
      if r.Some? && r.value != "" {
        WriteRowWellKeyed(st.data, periods, labels, r.value, LineValues(line));
      }
    }
  }

  // ---------------------------------------------------------------------
  // The page
  // ---------------------------------------------------------------------

  /** The loop over the lines, from an empty table and no warnings. The loop prints at most one warning per line. */
  function ParseLines(periods: seq<string>, labels: seq<string>, blocks: Matcher, lines: seq<string>): (st: State)
    ensures |st.warnings| <= |lines|
  {
    if lines == [] then State(map[], [])
    else
      var front := ParseLines(periods, labels, blocks, lines[..|lines| - 1]);
      StepWarnings(periods, labels, blocks, front, lines[|lines| - 1]);
      Step(periods, labels, blocks, front, lines[|lines| - 1])
  }

  /** One more line is one more step. */
  lemma ParseLinesSnoc(periods: seq<string>, labels: seq<string>, blocks: Matcher, lines: seq<string>, n: nat)
    requires n < |lines|
    ensures ParseLines(periods, labels, blocks, lines[..n + 1]) == Step(periods, labels, blocks, ParseLines(periods, labels, blocks, lines[..n]), lines[n])
  {
    assert lines[..n + 1][..n] == lines[..n];
  }

  /** parse_financial_data(text), with the printed warnings. */
  function Parse(text: string, blocks: Matcher): State {
    ParseLines(DetectPeriods(text), RowLabels, blocks, SplitLines(text))
  }

  lemma {:induction false} ParseLinesWellKeyed(periods: seq<string>, labels: seq<string>, blocks: Matcher, lines: seq<string>)
    ensures WellKeyed(ParseLines(periods, labels, blocks, lines).data, periods, labels)
    decreases |lines|
  {
    if lines != [] {
      ParseLinesWellKeyed(periods, labels, blocks, lines[..|lines| - 1]);
      StepWellKeyed(periods, labels, blocks, ParseLines(periods, labels, blocks, lines[..|lines| - 1]), lines[|lines| - 1]);
    }
  }

  /** Every column of the result is a detected period and every row one of the known labels. */
  lemma ParseWellKeyed(text: string, blocks: Matcher)
    ensures WellKeyed(Parse(text, blocks).data, DetectPeriods(text), RowLabels)
  {
    ParseLinesWellKeyed(DetectPeriods(text), RowLabels, blocks, SplitLines(text));
  }

  /** Every warning names a line of the page, stripped. */
  lemma {:induction false} ParseLinesWarnings(periods: seq<string>, labels: seq<string>, blocks: Matcher, lines: seq<string>, w: nat)
    requires w < |ParseLines(periods, labels, blocks, lines).warnings|
    ensures exists i :: 0 <= i < |lines| && ParseLines(periods, labels, blocks, lines).warnings[w] == Warning(lines[i])
    decreases |lines|
  {
    var n := |lines| - 1;
    var front := lines[..n];
    var st := ParseLines(periods, labels, blocks, front);
    var ws := Step(periods, labels, blocks, st, lines[n]).warnings;
    assert ParseLines(periods, labels, blocks, lines).warnings == ws;
    StepWarnings(periods, labels, blocks, st, lines[n]);
    if w < |st.warnings| {
      assert ws[w] == st.warnings[w];
      ParseLinesWarnings(periods, labels, blocks, front, w);
      var i :| 0 <= i < |front| && st.warnings[w] == Warning(front[i]);
      assert front[i] == lines[i];
    } else {
      assert ws[w] == Warning(lines[n]);
    }
  }

  /** Lines that are all blank or digit-free produce an empty table and no warnings. */
  lemma {:induction false} QuietLines(periods: seq<string>, labels: seq<string>, blocks: Matcher, lines: seq<string>)
    requires forall i :: 0 <= i < |lines| ==> forall c :: c in lines[i] ==> !IsDigit(c)
    ensures ParseLines(periods, labels, blocks, lines) == State(map[], [])
    decreases |lines|
  {
    if lines != [] {
      var last := lines[|lines| - 1];
      QuietLines(periods, labels, blocks, lines[..|lines| - 1]);
      assert forall j :: 0 <= j < |last| ==> last[j] in last;
      SkippedLine(periods, labels, blocks, State(map[], []), last);
    }
  }

  /** A page without a single digit (in particular an empty or blank page) yields an empty table and no warnings. */
  lemma NoDigitsNoData(text: string, blocks: Matcher)
    requires forall i :: 0 <= i < |text| ==> !IsDigit(text[i])
    ensures Parse(text, blocks) == State(map[], [])
  {
    var lines := SplitLines(text);
    forall i, c | 0 <= i < |lines| && c in lines[i] ensures !IsDigit(c) {
      JoinLinesChars(lines, i, c);
    }
    QuietLines(DetectPeriods(text), RowLabels, blocks, lines);
  }

  // ---------------------------------------------------------------------
  // The imperative parser
  // ---------------------------------------------------------------------

  /** The source's two-step update (create the column if missing, then store) is a Put. */
  lemma PutInPlace(data: Table, period: string, name: string, v: real)
    ensures var d := if period in data then data else data[period := map[]];
      d[period := d[period][name := v]] == Put(data, period, name, v)
  {
  }

  /**
   * The inner loop of parse_financial_data: value i is stored under
   * column i while there are columns left, creating the column's map on
   * first use.
   */
  method WriteValues(d0: Table, periods: seq<string>, name: string, values: seq<real>) returns (data: Table)
    ensures data == WriteRow(d0, periods, name, values)
  {
    data := d0;
    for i := 0 to |values|
      invariant data == WritePrefix(d0, periods, name, values, Min(i, |periods|))
    {
      if i < |periods| {
        ghost var before := data;
        if periods[i] !in data {
          data := data[periods[i] := map[]];
        }
        data := data[periods[i] := data[periods[i]][name := values[i]]];
        PutInPlace(before, periods[i], name, values[i]);
        assert Min(i + 1, |periods|) == i + 1;
      } else {
        assert Min(i + 1, |periods|) == Min(i, |periods|);
      }
    }
  }

  /**
   * The loop over the lines of parse_financial_data: skips blank and
   * number-free lines, writes the values of a matched line column by
   * column and appends a warning for each unmatched one.
   */
  method ExtractRows(periods: seq<string>, labels: seq<string>, blocks: Matcher, lines: seq<string>)
    returns (data: Table, warnings: seq<string>)
    ensures State(data, warnings) == ParseLines(periods, labels, blocks, lines)
  {
    data := map[];
    warnings := [];
    for li := 0 to |lines|
      invariant State(data, warnings) == ParseLines(periods, labels, blocks, lines[..li])
    {
      var line := lines[li];
      ParseLinesSnoc(periods, labels, blocks, lines, li);
      if Strip(line) == [] {
        continue;
      }
      var numbers := FindAll(Number, line);
      if numbers == [] {
        continue;
      }
      var matched := MatchLabel(line, labels, blocks);
      if matched.Some? && matched.value != "" {
        assert forall k :: 0 <= k < |numbers| ==> Matches(Number, numbers[k]);
        var cleanValues := Values(numbers);
        data := WriteValues(data, periods, matched.value, cleanValues);
      } else {
        warnings := warnings + [WarnPrefix + Strip(line)];
      }
    }
    assert lines[..|lines|] == lines;
  }

  /**
   * parse_financial_data(text): the periods found on the page, or the
   * fallback columns when there are fewer than six, then the loop over the
   * lines with the known row labels.
   */
  method ParseFinancialData(text: string, blocks: Matcher) returns (data: Table, warnings: seq<string>)
    ensures State(data, warnings) == Parse(text, blocks)
    ensures WellKeyed(data, DetectPeriods(text), RowLabels)
    ensures |warnings| <= |SplitLines(text)|
  {
    var periods := FindAll(Period, text);
    if |periods| < MinPeriods {
      periods := FallbackPeriods;
    }
    var lines := SplitLines(text);
    data, warnings := ExtractRows(periods, RowLabels, blocks, lines);
    ParseWellKeyed(text, blocks);
  }
}
