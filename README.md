# Financial-statement page parser, modelled in Dafny

This project models the text-to-table core of `task/extract_financials.py`.
The core turns one page of OCR text into a nested table, period → row label → value.
It has five parts:

- `clean_text` replaces each run of non-ASCII characters with one space and strips the result.
- `normalize` lower-cases a string and keeps only the letters `a`–`z`.
- `match_label` returns the first known row label whose normalized form is close to the normalized line.
- `parse_financial_data` detects the period columns and falls back to six fixed ones when fewer than six dates are found.
- `parse_financial_data` then walks the lines: it skips blank lines and lines without a number, writes the numbers of a matched line positionally into the table, and prints a warning for a line with numbers but no matching label.

Modules, one per concern of the source:

- `Chars`: the ASCII character classes used by Python's `\d`, `\w`, `strip()` and `lower()`.
- `TextOps`: `clean_text`, `str.strip`, `normalize` and `str.split('\n')`.
- `Scan`: the two regular expressions.
  - Each pattern is specified as a language, with a predicate on the candidate text.
  - Each has a hand-written matcher that is proved to return the longest match at a position.
  - `re.findall` is a left-to-right, non-overlapping scan, proved to report only longest matches, in text order and skipping none.
- `Numbers`: `float(n.replace(',', ''))`.
  - Tokens found by the number pattern are proved to become a literal `float()` accepts once their commas are stripped: `-?\d+\.?\d*`.
  - A literal's value is an exact `real`.
- `Labels`: the closeness test of `get_close_matches` with cutoff 0.7, and `match_label`.
- `Extract`: period detection, the table operations, and the loop over the lines.
  - The loop is specified as a left fold of one `Step` per line.
  - It is computed by the methods `ExtractRows`, `WriteValues` and `ParseFinancialData`, which use the source's loops and `continue` skips, and carry its create-then-assign dictionary updates as updates of a local map.

The similarity ratio of difflib is a parameter: a `Matcher` (`blocks`) gives the count M of matching characters between the label and the line.
A label is close when `2M/T >= 0.7`, which is written exactly as `20*M >= 7*T`, where T is the total length.
The proofs assume only two properties of the matcher, each only where a lemma says so. First, a string matches itself in full (`SelfMatching`). Second, no more characters match than either string has (`Bounded`).

The printed warnings are modelled as a log of strings that `parse_financial_data` returns beside the table.

## Model

| member | source | states |
|---|---|---|
| TextOps.CleanText | task/extract_financials.py:18-19 | The result has no non-ASCII character, and its first and last characters are not whitespace. |
| TextOps.ReplaceNonAscii | task/extract_financials.py:19 | The `re.sub` of `[^\x00-\x7F]+` by a space gives ASCII text no longer than its input. ReplaceRun, ReplaceNonAsciiAppend and ReplaceNonAsciiKeepsAscii determine it completely. |
| TextOps.ReplaceRun | task/extract_financials.py:19 | A whole run of non-ASCII characters becomes exactly one space. |
| TextOps.ReplaceNonAsciiAppend | task/extract_financials.py:19 | The substitution works piece by piece: on two pieces not joined inside a non-ASCII run, it is the concatenation of the two results. |
| TextOps.ReplaceNonAsciiKeepsAscii | task/extract_financials.py:19 | ASCII text is left as it is by the substitution. |
| TextOps.CleanAsciiIsStrip | task/extract_financials.py:18-19 | On ASCII text, clean_text is exactly strip(). |
| TextOps.Strip | task/extract_financials.py:19 | The result is the slice left after dropping the leading and trailing whitespace. It is empty exactly when the text is all whitespace, and otherwise starts and ends with a non-space. |
| TextOps.Normalize | task/extract_financials.py:29-30 | The result has only the letters a–z and is no longer than the text. |
| TextOps.NormalizeIdempotent | task/extract_financials.py:29-30 | Normalizing twice is normalizing once. |
| TextOps.NormalizeIgnoresCase | task/extract_financials.py:29-30 | Upper-casing the text first does not change the normalized form. |
| TextOps.NormalizeIgnoresNonLetter | task/extract_financials.py:29-30 | Inserting a character that is not a letter (a digit, punctuation, a space) does not change the normalized form. |
| TextOps.NormalizeAppend | task/extract_financials.py:29-30 | normalize works character by character: the form of a concatenation is the concatenation of the forms. |
| TextOps.NormalizeChar | task/extract_financials.py:29-30 | A letter survives as its lower-case form and any other character is dropped. With NormalizeAppend this determines normalize on every text. |
| TextOps.NormalizeOfLetters | task/extract_financials.py:29-30 | Text made only of a–z is its own normalized form. |
| TextOps.NormalizeOfNonLetters | task/extract_financials.py:29-30 | Text with no letter at all, such as a line of digits and punctuation, normalizes to the empty key. |
| TextOps.NormalizeOfLetterLast | task/extract_financials.py:29-30 | Text whose last character is a letter has a non-empty key. |
| TextOps.NormalizeExample | task/extract_financials.py:29-30 | "Revenue from operations" and "REVENUE FROM OPERATIONS!!" have the same normalized form. |
| TextOps.SplitLines | task/extract_financials.py:78 | split('\n') gives at least one piece, none of which holds a newline, and joining the pieces with newlines gives back the text. |
| TextOps.SplitJoin | task/extract_financials.py:78 | Splitting lines joined with newlines gives back the same lines. |
| Labels.MatchLabel | task/extract_financials.py:33-38 | None exactly when no label is close. Otherwise it is the label at some position k that is close, and no label before k is close. |
| Labels.ExactLabelMatches | task/extract_financials.py:33-38 | A line whose normalized form equals that of the label at position k is matched, to that label or an earlier one. This assumes a string matches itself in full. |
| Labels.FirstCloseIsMatched | task/extract_financials.py:33-38 | The first close label in list order is the one returned. |
| Labels.EmptyKeyUnmatched | task/extract_financials.py:33-38 | For a matcher that, like SequenceMatcher, counts no more matching characters than either string has, a line with an empty key matches no label with a non-empty key. |
| Scan.PeriodAtSpec | task/extract_financials.py:64 | The period matcher reports an end exactly when `\d{1,2} \w{3,9} \d{4}` matches a slice from that start, and that end is the end of the only such slice. |
| Scan.PeriodAt | task/extract_financials.py:64 | A match reported at a start ends after it and inside the text. What it reports is pinned down by PeriodAtSpec. |
| Scan.NumberAtSpec | task/extract_financials.py:83 | The number matcher reports the longest slice from the start that matches `-?\d[\d,]*\.?\d*`, and reports nothing exactly when no slice from the start matches. |
| Scan.NumberAt | task/extract_financials.py:83 | A match reported at a start ends after it and inside the text. What it reports is pinned down by NumberAtSpec. |
| Scan.MatchAtSpec | task/extract_financials.py:64 | For both patterns, the match found at a position is the longest one, and none is found only when none exists. |
| Scan.Spans | task/extract_financials.py:64 | The scan of findall: every span lies inside the text from the scan position on. SpansMatch, SpansOrdered and SpansCover state what it reports. |
| Scan.SpansMatch | task/extract_financials.py:64 | Every span findall reports is a match, and it is the longest match from its start. |
| Scan.SpansOrdered | task/extract_financials.py:64 | The spans findall reports are in text order and do not overlap. |
| Scan.SpansCover | task/extract_financials.py:64 | findall misses no match: every match in the text starts inside a reported span. |
| Scan.FindAll | task/extract_financials.py:83 | Every string findall returns matches the pattern. |
| Scan.FindAllEmpty | task/extract_financials.py:64 | findall returns nothing exactly when no slice of the text matches the pattern. |
| Scan.NumberTokensIffDigit | task/extract_financials.py:83-85 | A line has a numeric token exactly when it contains a digit. |
| Scan.PeriodExample | task/extract_financials.py:64 | Without a word boundary, "31 Dec 20234" yields exactly ["31 Dec 2023"]. |
| Numbers.StripCommas | task/extract_financials.py:89 | replace(',', '') leaves no comma and never lengthens the token. |
| Numbers.StripCommasAppend | task/extract_financials.py:89 | Stripping commas distributes over concatenation. |
| Numbers.StripCommasKeeps | task/extract_financials.py:89 | A text without commas is left as it is. |
| Numbers.NumberTokenConverts | task/extract_financials.py:83-89 | Every token of the number pattern becomes, once commas are stripped, a literal of the form `-?\d+\.?\d*`, so float() never fails on it. |
| Numbers.TokenValue | task/extract_financials.py:89 | A token with a leading minus has a value of at most zero, and any other token a value of at least zero. |
| Numbers.TokenValueIgnoresSeparator | task/extract_financials.py:89 | Deleting a comma from a numeric token leaves a numeric token with the same value, so thousands separators never change a value. |
| Numbers.ValuesIgnoreSeparators | task/extract_financials.py:89 | The list `clean_values` (Numbers.Values, one value per token in order) is the same for any two token lists that agree once their commas are stripped. |
| Numbers.FloatValue | task/extract_financials.py:89 | The value of a literal has the sign of the literal. Its value on every literal is stated by UnsignedLiteralValue and NegatedLiteral. |
| Numbers.UnsignedLiteralValue | task/extract_financials.py:89 | For all digit strings x (non-empty) and ds, the literal x has the positional value of x. The literal x.ds has the value of x plus the value of ds over ten to the number of digits of ds. |
| Numbers.NegatedLiteral | task/extract_financials.py:89 | A minus sign in front of an unsigned literal negates its value. |
| Numbers.FractionIsRatio | task/extract_financials.py:89 | The digits after the point are worth the whole number they spell, over ten to their count. |
| Numbers.DigitsValueCons | task/extract_financials.py:89 | In positional notation, a leading digit is worth its value times ten to the number of digits after it. |
| Numbers.FloatOfDecimal | task/extract_financials.py:89 | Reading back the decimal digits of a natural number n gives n, and with a leading minus sign gives -n. |
| Numbers.TokenValueExample | task/extract_financials.py:89 | "12,345.67" converts to 12345.67. |
| Extract.DetectPeriods | task/extract_financials.py:64-75 | There are always at least six periods. With six or more date matches they are exactly those matches, in text order and not truncated. Otherwise they are exactly the six fallback columns. |
| Extract.DetectedPeriodsAreDates | task/extract_financials.py:64-75 | Each period is a matched date, or the periods are the fallback list. |
| Extract.NoDatesFallBack | task/extract_financials.py:67-75 | A page where no slice is a date gets the fallback columns, starting with "Quarter ended 31 December 2024". |
| Extract.RowLabelsNonEmpty | task/extract_financials.py:44-61 | No known row label is empty, so the truthiness test on line 88 accepts every matched label. |
| Extract.Put | task/extract_financials.py:92-94 | One store into the nested table. Its effect is stated by PutEffect, and PutInPlace shows it is the source's two-step update. |
| Extract.PutEffect | task/extract_financials.py:92-94 | One store creates the period column if it is missing. It sets that single entry and leaves every other entry as it reads. |
| Extract.PutInPlace | task/extract_financials.py:92-94 | The source's create-then-assign update is the single store Put. |
| Extract.WritePrefixKeys | task/extract_financials.py:90-94 | After writing a row, the columns are those there before plus the periods written to. |
| Extract.WritePrefixInnerKeys | task/extract_financials.py:90-94 | Writing a row adds no row label but its own. |
| Extract.WriteRowEffect | task/extract_financials.py:90-94 | Only the entries [periods[i]][label] with i < min(#values, #periods) change. A period listed twice keeps the later value. Every other entry is unchanged. |
| Extract.WriteRow | task/extract_financials.py:90-94 | The inner loop as a value: the values written positionally under one label. Its effect is stated by WriteRowEffect, WritePrefixKeys and WritePrefixInnerKeys. |
| Extract.WriteRowWellKeyed | task/extract_financials.py:90-94 | Writing a known label's row keeps every column a period and every row a known label. |
| Extract.Skipped | task/extract_financials.py:79-85 | The two `continue` tests hold exactly when the line is all whitespace or holds no digit. |
| Extract.LineValues | task/extract_financials.py:83-89 | `clean_values` of a line: empty exactly when the line holds no digit. Its entries are stated by MatchedLine, and their values by Numbers.TokenValue and the literal lemmas. |
| Extract.Warning | task/extract_financials.py:96 | The printed text, "[WARN] No label match for: " followed by the stripped line. It is stated by UnmatchedLine and ParseLinesWarnings. |
| Extract.Record | task/extract_financials.py:87-96 | Writing a matched line's values, or appending the warning. Its effect is stated by MatchedLine and UnmatchedLine. |
| Extract.Step | task/extract_financials.py:79-96 | One iteration of the loop over the lines. Its effect is stated by SkippedLine, UnmatchedLine, MatchedLine, StepWarnings and StepWellKeyed. |
| Extract.SkippedLine | task/extract_financials.py:79-85 | A blank line, or a line without a digit, leaves the table unchanged and prints nothing. |
| Extract.UnmatchedLine | task/extract_financials.py:87-96 | A line with a digit but no close label leaves the table unchanged and adds exactly one warning, "[WARN] No label match for: " followed by the stripped line. |
| Extract.RowLabelsHaveKeys | task/extract_financials.py:44-61 | Every known row label has a non-empty normalized key. |
| Extract.LetterFreeLineWarns | task/extract_financials.py:79-96 | For a matcher bounded as SequenceMatcher is, a line with a digit but no letter always gets the warning and leaves the table unchanged. |
| Extract.MatchedLine | task/extract_financials.py:87-94 | A line with a digit and a close label prints nothing. It writes each of the line's values under the first close label in its positional column, and leaves every other entry as it was. |
| Extract.StepWarnings | task/extract_financials.py:79-96 | One line adds no warning or exactly the warning for that line. |
| Extract.ParseLines | task/extract_financials.py:79-96 | The loop prints at most one warning per line. |
| Extract.Parse | task/extract_financials.py:41-98 | parse_financial_data as a value: the fold of Step over the lines of the text, with the detected periods and the known labels. ParseWellKeyed, NoDigitsNoData and ParseFinancialData state what it gives. |
| Extract.ParseLinesWarnings | task/extract_financials.py:95-96 | Every warning carries one of the page's lines, stripped. |
| Extract.ParseWellKeyed | task/extract_financials.py:41-98 | Every outer key of the result is a detected period, and every inner key is one of the known row labels. |
| Extract.QuietLines | task/extract_financials.py:79-85 | Lines with no digit produce an empty table and no warnings. |
| Extract.NoDigitsNoData | task/extract_financials.py:41-98 | A page with no digit, in particular an empty page, yields {} and no warnings. |
| Extract.WriteValues | task/extract_financials.py:90-94 | The inner loop, which creates the column's map on first use, computes the row write WriteRow. |
| Extract.ExtractRows | task/extract_financials.py:78-96 | The loop over the lines, with its two skips, its writes into the local table and its appended warnings, computes the fold ParseLines. |
| Extract.ParseFinancialData | task/extract_financials.py:41-98 | The method returns what Parse specifies. Every column is a detected period and every row a known label, and there are no more warnings than lines. |

## Left out

- `extract_text_from_page` (rasterising the page and calling Tesseract) is foreign library I/O. The model starts from the page text.
- `process_pdf` opens a file, picks pages 6 and 11 and prints. Its result is a fixed-shape wrapper around two parse calls, so it is not modelled.
- The module constants for the Tesseract and file paths, and the `__main__` block, are left out: they cover JSON serialisation, directory creation and file writing.
- difflib's SequenceMatcher is left out: its longest-matching-block search, junk heuristics and the `real_quick_ratio`/`quick_ratio` prefilters. The matching count is a parameter, `Labels.Matcher`. Python compares the ratio as a float against 0.7, while the model compares exactly over the integers.
- `Numbers.FloatValue` gives the exact decimal value. It does not model IEEE-754 rounding or overflow to infinity in `float()`.
- Dictionary insertion order is not modelled: Dafny maps are unordered, so the order of columns and rows in the printed JSON is not captured.
- Character classes are ASCII only. Python's `\d`, `\w`, `lower()` and `strip()` also act on non-ASCII characters; the model is exact for text that has been through `clean_text`, which is the only text the source passes in.
- Printing to stdout is left out; warnings are a returned log. The `[INFO]` and OCR-preview prints belong to `process_pdf`.
