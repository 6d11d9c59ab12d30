# Wayback coverage analyzer, modelled in Dafny

This project models the pure pipeline of `WaybackAnalyzer` in `analyzer.py`. The pipeline works like this:

1. The user's domain is normalised.
2. The archive index's rows are taken without their header row.
3. The snapshots are grouped by capture year.
4. The first and last captures are formatted as dates.
5. Missing years between the first and last observed year are listed.
6. A health score and its label are computed.
7. The report shows a bar chart of the last ten years and the first ten missing years.

Every operation is a pure function over immutable data. Each one is proved against an independent description of its result: for example, the tally against per-year counts, or the bar length against the floor inequality.

Modules, in dependency order:

- `Wrappers`: `Option`.
- `Arith`: two cancellation facts about products.
- `Text`: Python's string order (`<` on `str`), `startswith` and slicing.
- `Decimal`: `int()` on ASCII digit strings and zero-padded rendering.
- `Years`: four-character year keys. It proves `str(int(y)) == y`, and that string order agrees with numeric order.
- `Domain`: the `replace('http://', '')`, `replace('https://', '')` and `strip('/')` chain.
- `Fetch`: the three endings of the index request and the header-row skip.
- `Dates`: `format_timestamp`. It models `strptime(ts[:8], '%Y%m%d')` as the regular expression the standard library builds for that format, then `strftime('%Y-%m-%d')`.
- `Coverage`: `analyze`.
- `Health`: `calculate_health_score`, the health label, and a clamped score (see Findings).
- `Report`: the bar arithmetic and the last-ten / first-ten / "and N more" selection of `print_report`.
- `Walkthrough`: the three-snapshot example (2020, 2020, 2022) carried through `analyze` and the score.

## Model

| member | source | states |
|---|---|---|
| Domain.DeleteAll | analyzer.py:62 | `str.replace(p, '')` never lengthens the string |
| Domain.DeleteAllUnchanged | analyzer.py:62 | replacing a prefix leaves the string unchanged exactly when the prefix does not occur in it; otherwise at least one whole occurrence is removed |
| Domain.DeleteAllPrefix | analyzer.py:62 | a scheme in front of the domain is deleted together with everything the rest deletes |
| Domain.TrimLeadingSlashes | analyzer.py:62 | the result is a suffix of the input, only `/` characters were cut, and it does not begin with `/` |
| Domain.TrimTrailingSlashes | analyzer.py:62 | the result is a prefix of the input, only `/` characters were cut, and it does not end with `/` |
| Domain.StripSlashes | analyzer.py:62 | `strip('/')` returns a slice of the input framed by slashes only, with no slash at either end |
| Domain.Normalize | analyzer.py:62 | the normalised domain is no longer than the input and has no slash at either end |
| Domain.StripBare | analyzer.py:62 | `strip('/')` leaves a bare domain alone and removes one trailing slash from it |
| Domain.NoSchemeWithSlash | analyzer.py:62 | appending a slash to a domain without a scheme does not create one |
| Domain.NoHttpAfterHttps | analyzer.py:62 | `https://` in front of a domain free of `http://` does not create an `http://` |
| Domain.NormalizeVariants | analyzer.py:62 | a bare domain, with or without `http://` or `https://` in front and a trailing slash behind, normalises to itself |
| Domain.DeleteJoinsScheme | analyzer.py:62 | one pass of `replace` can join the text around a deleted scheme into a new scheme |
| Domain.NormalizeNotIdempotent | analyzer.py:62 | normalisation is not idempotent: `hthttp://tp://x` becomes `http://x`, which becomes `x` |
| Fetch.FetchSnapshots | analyzer.py:83-116 | the fetch succeeds exactly when the decoded body has more than one row, and then the snapshots are every row after the first; a timeout, a request error or a short body leaves no snapshots |
| Coverage.Timestamps | analyzer.py:127-131 | the timestamp list holds each row's first field, in row order |
| Coverage.Tally | analyzer.py:124-130 | the year table has a key exactly for each year that occurs, holding the number of timestamps in that year |
| Coverage.CountYearPositive | analyzer.py:139 | a year has a positive count exactly when it is the year of some timestamp |
| Coverage.FirstYear | analyzer.py:139-141 | the start year is the year of some timestamp and no timestamp is in an earlier year |
| Coverage.LastYear | analyzer.py:139-142 | the end year is the year of some timestamp and no timestamp is in a later year |
| Coverage.Earliest | analyzer.py:133-135 | the first timestamp after sorting is one of the timestamps and sorts before or equal to all of them |
| Coverage.Latest | analyzer.py:133-136 | the last timestamp after sorting is one of the timestamps and sorts after or equal to all of them |
| Coverage.CountsInRange | analyzer.py:150 | each listed item is a year of the span that is in the table, with its count, and the items are in strictly increasing year order |
| Coverage.CountsInRangeComplete | analyzer.py:150 | every year of the span that is in the table is listed |
| Coverage.MissingInRange | analyzer.py:139-146 | each missing year is a year of the span absent from the table, and the list is in strictly increasing order |
| Coverage.MissingInRangeComplete | analyzer.py:143-144 | every year of the span absent from the table is listed as missing |
| Coverage.AscendingByValue | analyzer.py:153 | years in increasing numeric order are in increasing string order, which is the order `sorted` produces |
| Coverage.AscendingCardinality | analyzer.py:150-154 | a strictly ascending list has no repeats: its set of elements is as large as the list |
| Coverage.TallyRangeSum | analyzer.py:149-150 | the counts of the listed years add up to the number of timestamps in the span |
| Coverage.RangeCountAll | analyzer.py:127-130 | when every timestamp's year is in the span, the span holds every timestamp |
| Coverage.TallyKeys | analyzer.py:139-143 | the table's keys are the observed years, each a year of the span that `str(int(y))` reproduces |
| Coverage.ConservedHolds | analyzer.py:149-150 | the total snapshot count and the sum of the yearly counts both equal the number of snapshots |
| Coverage.CountsMatchTally | analyzer.py:124-130 | every listed count is the positive number of timestamps in that year |
| Coverage.EveryYearListed | analyzer.py:150 | every timestamp's year appears among the listed years |
| Coverage.CountKeysAreTallyKeys | analyzer.py:150 | the listed years are exactly the table's keys |
| Coverage.TotalYearsDistinct | analyzer.py:154 | `total_years` equals both the number of listed years and the number of distinct observed years |
| Coverage.CountsByYearHolds | analyzer.py:148-154 | the listed counts are ascending by year, count every year, cover every timestamp and agree with `total_years` |
| Coverage.AbsentKeysNotListed | analyzer.py:144 | a year outside the table is not the year of any item taken from it |
| Coverage.MissingInSpan | analyzer.py:139-146 | every missing year lies between the first and last observed year and is not a listed year |
| Coverage.SpanSplit | analyzer.py:143-144 | over any year range, each year is either listed or missing, never both |
| Coverage.SpanPartition | analyzer.py:143-144 | each year from the first to the last observed year is either listed or missing, never both |
| Coverage.GapsHold | analyzer.py:139-146 | the missing years are strictly ascending, lie in the span, and split the span with the observed years |
| Coverage.StatsOf | analyzer.py:123-155 | for a non-empty timestamp list, the statistics conserve the count, list every year once in order, split the span, and format the extreme timestamps |
| Coverage.Analyze | analyzer.py:118-155 | `analyze` returns nothing exactly when there are no snapshots; otherwise it returns statistics that summarise the timestamps as above |
| Coverage.EarliestNotAfterLatest | analyzer.py:133-136 | the first timestamp never sorts after the last |
| Coverage.FirstYearIsMinKey | analyzer.py:141 | `min(all_years)` on strings is the numeric start year |
| Coverage.LastYearIsMaxKey | analyzer.py:142 | `max(all_years)` on strings is the numeric end year |
| Coverage.EarliestInFirstYear | analyzer.py:133-141 | the earliest timestamp lies in the start year |
| Coverage.LatestInLastYear | analyzer.py:133-142 | the latest timestamp lies in the end year |
| Coverage.SpanSize | analyzer.py:143-146 | listed years and missing years together number the years of the span |
| Coverage.YearsFillSpan | analyzer.py:143-154 | `total_years` plus the number of missing years is the length of the span from first to last year |
| Years.YearKey | analyzer.py:129 | `timestamp[:4]` |
| Years.YearKeyIsPrefix | analyzer.py:129 | the key is the first four characters of the timestamp, or all of it when it is shorter than four |
| Years.YearText | analyzer.py:143 | `str(y)` for a four-digit year |
| Years.YearValue | analyzer.py:141 | `int()` of a year key lies in 1000..9999 |
| Years.TextOfValue | analyzer.py:141-143 | `str(int(y)) == y` for every year key |
| Years.ValueOfText | analyzer.py:143 | `str(n)` of a four-digit year is a year key whose `int()` is `n` |
| Years.YearTextInjective | analyzer.py:143 | distinct years of the range render as distinct strings |
| Years.YearOrder | analyzer.py:141-142 | string order on year keys is numeric order |
| Years.YearOrderEq | analyzer.py:141-142 | the non-strict string order on year keys is numeric `<=` |
| Text.LexLess | analyzer.py:134-142 | Python's `<` on `str`, the order `sort`, `min` and `max` use: code point by code point, a proper prefix first |
| Text.LexLessPrefix | analyzer.py:134 | a proper prefix sorts before the string it prefixes |
| Text.LexLessAt | analyzer.py:134 | strings equal up to a position where the first has the smaller character sort in that order |
| Text.LexLessCases | analyzer.py:134 | conversely, `a < b` only through a proper prefix or a first difference in `a`'s favour |
| Text.LexLessIrreflexive | analyzer.py:134 | no string sorts before itself |
| Text.LexLessTransitive | analyzer.py:134 | string order is transitive |
| Text.LexLessTotal | analyzer.py:134 | of two different strings, one sorts before the other |
| Text.LexLessAsymmetric | analyzer.py:134 | two strings never sort before each other |
| Text.LexLessEqTransitive | analyzer.py:134 | `<=` on strings is transitive |
| Text.LexLessAppend | analyzer.py:141-142 | two equal-length strings extended by one character each compare by the prefixes, or by the new characters when the prefixes are equal |
| Text.LexLessEqPrefix | analyzer.py:141-142 | if one string sorts no later than another, so do their first `k` characters |
| Text.StartsWith | analyzer.py:178 | Python's `s.startswith(p)` |
| Text.StartsWithTake | analyzer.py:178 | `s.startswith(p)` holds exactly when `s[:len(p)] == p` |
| Text.Take | analyzer.py:160-162 | `s[:k]` is the prefix of length `min(k, len(s))` |
| Decimal.Value | analyzer.py:141-142 | `int()` on a string of ASCII digits |
| Decimal.ValueBound | analyzer.py:141-142 | `int()` of `k` digits is below `10 ** k` |
| Decimal.ValueLowerBound | analyzer.py:141-142 | `int()` of `k` digits without a leading zero is at least `10 ** (k - 1)` |
| Decimal.ValueOfDigits | analyzer.py:143 | `int()` of a zero-padded rendering gives the number back |
| Decimal.DigitsOfValue | analyzer.py:141-143 | rendering `int()` of a digit string at its own width gives the string back |
| Decimal.ValueOrder | analyzer.py:141 | on digit strings of equal length, string order is numeric order |
| Dates.IsValidDate | analyzer.py:160 | a date `datetime` accepts: year 1..9999, month 1..12, a day that exists in that month of that year |
| Dates.FormatDate | analyzer.py:160 | `strftime('%Y-%m-%d')`, every field zero-padded |
| Dates.FormatDateRoundTrip | analyzer.py:157-162 | every valid date, written as eight digits `YYYYMMDD`, is formatted back as `FormatDate` writes it |
| Dates.FormatDateOf | analyzer.py:160 | a date whose fields are read from digit strings is written as those strings joined by dashes |
| Dates.MatchDay | analyzer.py:160 | the `%d` group yields a day 1..31 from one or two characters |
| Dates.MatchMonthDay | analyzer.py:160 | the `%m%d` groups yield a month 1..12 and a day 1..31 |
| Dates.ParseDate | analyzer.py:160 | whatever `strptime` accepts is a real Gregorian date |
| Dates.FormatTimestamp | analyzer.py:157-162 | the result is the first eight characters exactly when they do not parse; otherwise it is a ten-character dashed date that starts with the timestamp's own year |
| Dates.FormatEightDigits | analyzer.py:157-162 | on eight ASCII digits, the result is `YYYY-MM-DD` when that date exists and the eight digits otherwise |
| Dates.FormatKeepsDecadePrefix | analyzer.py:178 | the formatted last date starts with `202` exactly when the raw timestamp does |
| Dates.FormatMalformed | analyzer.py:161-162 | a timestamp that does not parse is returned as its slice |
| Dates.FormatNonexistentDay | analyzer.py:159-162 | February 29th of a common year falls back to the raw eight characters |
| Dates.FormatLeapDay | analyzer.py:160 | February 29th of a leap year is formatted |
| Dates.FormatShortDay | analyzer.py:160 | a seven-character slice with a one-digit day parses and is zero-padded |
| Dates.FormatSpacedDay | analyzer.py:160 | a day written with a leading space parses and is zero-padded |
| Health.TruncDiv | analyzer.py:175-181 | division followed by `int()`: the quotient is truncated toward zero |
| Health.QuotientExact | analyzer.py:181 | an exact multiple divides back to its factor |
| Health.QuotientPercent | analyzer.py:175-181 | a rate between 0 and 100 percent truncates to an integer in 0..100 |
| Health.QuotientAtMost | analyzer.py:179-181 | a rate capped at 100 percent truncates to at most 100, also when it is negative |
| Health.Score | analyzer.py:164-181 | the score never exceeds 100; no years gives 0; years with none missing give 100 |
| Health.TruncDivNegative | analyzer.py:181 | a truncated quotient is negative exactly when the dividend reaches minus the divisor |
| Health.ScoreNonNegative | analyzer.py:175-181 | with no more missing years than observed years, the score is at least 0 |
| Health.ScoreNegative | analyzer.py:175-181 | the score is negative exactly when the missing years outweigh the observed ones by at least one percent of the observed count, net of the recency bonus |
| Health.ScoreIsTruncatedCoverage | analyzer.py:175-181 | without the bonus, the score is the coverage percentage rounded down |
| Health.ScoreWithBonus | analyzer.py:175-181 | with the bonus, the score is 100 once the rate plus 10 reaches 100, and otherwise the rate plus 10 rounded down |
| Health.TruncDivMonotone | analyzer.py:181 | truncation toward zero keeps the order of the values it truncates |
| Health.BonusNeverLowers | analyzer.py:178-179 | the recency bonus never lowers the score |
| Health.BonusAddsTen | analyzer.py:178-181 | below the cap, with no more missing years than observed ones, the bonus adds exactly 10 points |
| Health.BonusBeforeTruncation | analyzer.py:178-181 | the bonus is added before truncation: 40 years with 41 missing score -2 without it and 7 with it |
| Health.HealthScore | analyzer.py:164-181 | the score of no statistics is 0, is at most 100, and is 100 when no year is missing |
| Health.AnalyzedHealth | analyzer.py:139-181 | the score of an analysis is the score of the observed-year count against the gaps in the span, with the bonus exactly when the latest raw timestamp starts with `202` |
| Health.NegativeScoreWitness | analyzer.py:175-181 | snapshots in 2000 and 2010 only score -350 |
| Health.HealthLabel | analyzer.py:218 | the label is Excellent from 90, Good from 70 to 89, Fair from 50 to 69, and Limited below 50 |
| Health.LabelMonotone | analyzer.py:218 | a higher score never gets a lower label |
| Health.ClampedHealthScore | analyzer.py:164-181 | the corrected score lies in 0..100, equals the original whenever that is not negative, and is 0 otherwise |
| Health.ClampKeepsLabel | analyzer.py:218 | clamping never changes the label |
| Health.ClampInertOnDenseArchives | analyzer.py:175-181 | when no more years are missing than observed, clamping changes nothing |
| Health.ClampedWitness | analyzer.py:175-181 | the 2000/2010 archive scores 0 after clamping |
| Report.MaxCount | analyzer.py:198 | the largest count bounds every count; with no years it is 1 |
| Report.MaxCountAttained | analyzer.py:198 | with at least one year, the largest count is the count of some year |
| Report.BarLength | analyzer.py:205 | `int((count / max_count) * 10)` in exact arithmetic |
| Report.BarLengthFloor | analyzer.py:205 | the bar length `n` satisfies `n * max_count <= count * 10 < (n + 1) * max_count` |
| Report.BarLengthLargest | analyzer.py:205 | no whole number of tenths of `max_count` above the bar length fits in `count * 10` |
| Report.BarLengthBounds | analyzer.py:205-206 | a bar is at most 10 long, and exactly 10 only for a year holding the largest count |
| Report.BarLengthMonotone | analyzer.py:205 | a larger count never gets a shorter bar |
| Report.Repeat | analyzer.py:206 | string repetition by a negative count is empty; otherwise it has the given length and character |
| Report.Bar | analyzer.py:206 | the bar is filled exactly up to its length and padded with empty cells to 10 |
| Report.LastTen | analyzer.py:201 | `[-10:]` keeps the last `min(n, 10)` items in order |
| Report.FirstTen | analyzer.py:213 | `[:10]` keeps the first `min(n, 10)` items in order |
| Report.Overflow | analyzer.py:209-210 | an "and N more" line appears exactly when there are more than ten items, with a positive N |
| Report.ExcerptsAccountForAll | analyzer.py:201-215 | the items shown plus the N reported as more are all the items |
| Report.Cells | analyzer.py:206 | ten cells: the first `n` are `█`, the rest `░` |
| Report.Line | analyzer.py:203-207 | a chart line carries its year and count, and its bar is ten cells of which exactly the first `BarLength(count, max_count)` are filled |
| Report.Lines | analyzer.py:203-207 | one chart line per shown year, in order, each with its year, its count and a bar filled up to the bar length of that count |
| Report.ChartLines | analyzer.py:201-207 | against any `max_count` that bounds every count, line `i` shows the `i`-th of the last ten years with its count and a bar filled up to the bar length of that count |
| Report.CoverageLines | analyzer.py:197-207 | the chart shows the last ten years in order; each line shows its year's count and a ten-cell bar whose filled cells are exactly the first `BarLength(count, max(yearly.values()))` |
| Report.ListedYearsAreLatest | analyzer.py:201 | every year left off the chart is earlier than every year on it |
| Report.ListedGapsAreEarliest | analyzer.py:213 | every missing year left off the list is later than every one shown |
| Report.AnalyzedBars | analyzer.py:198-206 | for any analysis, every bar is at most 10 long, and a bar is full exactly for the busiest years |
| Walkthrough.SampleAnalysis | analyzer.py:118-155 | snapshots from 2020-01-01, 2020-06-15 and 2022-01-01 give counts 2020: 2 and 2022: 1, missing year 2021, two years, first 2020-01-01 and last 2022-01-01 |
| Walkthrough.SampleHealth | analyzer.py:164-181 | that archive scores 60, which is labelled Fair |

## Left out

- The HTTP request to the archive index, its parameters and timeout, JSON decoding, and the progress spinner thread (`ProgressIndicator`): these are foreign I/O and concurrency. `Fetch` takes the request's three possible endings as its input.
- All console text and emoji in `fetch_snapshots` and `print_report`, `save_report`, `main` and the interactive mode: presentation only. The bar chart's arithmetic and its choice of lines are modelled in `Report`; the printed wording is not.
- The current date used in the saved report: a clock read.
- Fetch.FetchSnapshots: a decoded body that is not a list of rows is not modelled, because the type of a decoded row is fixed here.
- Coverage.Analyze: requires every row to have a first field whose first four characters are ASCII digits not starting with `0`. Other rows are not modelled, and what the source does with them varies. An empty row raises `IndexError` at `snapshot[0]` before any key exists. Otherwise only `min(all_years)` and `max(all_years)` reach `int()`, and string order decides which keys those are. A key there that `int()` rejects raises `ValueError`. A key there that `int()` accepts is used as a year even when it is not four digits: a lone `999` gives one year and no missing ones, and `999` next to `2000` sorts last, so the range from 2000 to 999 is empty and nothing is missing although two years are listed. A key whose `str(int())` differs from it (`0999`) cannot be matched by the range. A key strictly between the smallest and the largest never reaches `int()` and is returned as one more year: first fields `20050101`, `201` and `20100101` give `total_years` 3 with 2006 to 2009 missing. In these cases `total_years` plus the missing years need not be the length of the span, so `Coverage.YearsFillSpan` does not carry over.
- Dates.FormatTimestamp: only ASCII digits are modelled. `strptime`'s `\d` also accepts other Unicode decimal digits, and letter case is irrelevant for this format.
- Dates.FormatTimestamp: years are assumed to be rendered with four zero-padded digits by `strftime('%Y')`, as on common platforms.
- Health.Score: exact rational arithmetic truncated toward zero is used instead of floating point. The source can differ by one point where a float product falls just below an integer: for example, 100 years with 71 missing gives 28 in floats and 29 here.
- Report.BarLength: exact arithmetic as well. The float product `(count / max_count) * 10` is assumed never to round below an integer it equals exactly.

Behaviour of the code that a reader might expect to be otherwise, reproduced as written:

- Normalisation is not idempotent and does not trim whitespace (`Domain.NormalizeNotIdempotent`).
- The bar length is truncated, not rounded (`Report.BarLength`).
- The recency bonus applies only when the formatted last date starts with `202`.
- The score has no lower bound of 0 (see Findings).

## Findings

| source | as written | input that shows it | evidently intended | confidence | as-written member | corrected member |
|---|---|---|---|---|---|---|
| analyzer.py:175-181 | the coverage rate is `(total_years - missing) / total_years * 100`, with only an upper cap of 100 | snapshots only in 2000 and 2010: two observed years, nine missing, score -350 | a health score in 0..100, as its percentage display and its labels assume | not executed | Health.NegativeScoreWitness | Health.ClampedHealthScore |
