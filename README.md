# claude-heatmap, modelled in Dafny

`scripts/claude-heatmap.py` reads exported chat conversations and draws a GitHub-style
calendar heatmap of one year's activity. This project models its two computational parts
and proves what they promise:

- **Timestamp normalisation** (`parse_conversation_times`), in `timestamps.dfy`. For each
  record it takes `created_at`, or else `timestamp`, judged by Python truthiness. It tries
  `datetime.fromisoformat` after every `'Z'` has been rewritten to `"+00:00"`, then a Unix
  epoch parse through `float`. It skips the record when both fail, converts the instant
  to the target time zone, and keeps the results in record order. The library calls
  (`fromisoformat`, `float` on a string, `fromtimestamp`, `pytz.timezone`, `astimezone`)
  are fields of a `Library` value of partial functions, so every property holds whatever
  those functions do.
- **Year bucketing and the calendar grid** (the non-drawing part of `create_year_heatmap`),
  in `calendar.dfy`, `counting.dfy` and `heatmap.dfy`:
  - the year filter;
  - the `collections.Counter` of dates, with its insertion order;
  - the full-year date range;
  - the `(week, day_of_week, count)` cells;
  - the month-label columns;
  - `weeks_in_year`;
  - the most active day (`max(..., key=get)`, first maximum wins);
  - the total shown in the title.

  Dates are Python `datetime.date` values: proleptic Gregorian, years 1 to 9999. Weekdays
  come from `toordinal`, as in Python.

The loops of the source are methods proved equal to the functions that specify them:

- `ParseConversationTimes` is the `for conv in conversations` loop, with its `continue`
  and its escaping exceptions.
- `CountOccurrences` builds the `Counter`.
- `BuildGrid` is the `for date in date_range` loop.
- `CreateYearHeatmap` runs the function body in order.

Modules: `Wrappers` (Option and Result), `Calendar`, `Timestamps`, `Counting` (generic
over the key type) and `Heatmap`.

## Model

| member | source | states |
|---|---|---|
| Timestamps.Truthy | scripts/claude-heatmap.py:26-27 | Python truthiness of a decoded value: `None`, `False`, `0`, `""`, `[]` and `{}` are falsy, everything else truthy |
| Timestamps.TimestampValue | scripts/claude-heatmap.py:26-27 | the chosen value is truthy iff `created_at` or `timestamp` is; it is `created_at` when that is truthy, else `timestamp` (None when missing) |
| Timestamps.ReplaceZ | scripts/claude-heatmap.py:31 | `timestamp.replace('Z', '+00:00')`: each character in turn, a `'Z'` becoming `"+00:00"` (its properties are `ReplaceZRemovesEveryZ` and `ReplaceZAppend`) |
| Timestamps.ReplaceZRemovesEveryZ | scripts/claude-heatmap.py:31 | the rewritten string holds no `'Z'`; a string without `'Z'` is unchanged; it is never shorter |
| Timestamps.ReplaceZAppend | scripts/claude-heatmap.py:31 | the rewrite distributes over concatenation: every `'Z'` is replaced, not only the first or a trailing one |
| Timestamps.ZuluSameAsUtcOffset | scripts/claude-heatmap.py:31 | a value ending in `Z` and the same value ending in `+00:00` reach `fromisoformat` as the same string |
| Timestamps.IsoAttempt | scripts/claude-heatmap.py:31 | the ISO parse: `fromisoformat` of the rewritten string for a string value; no instant for any other value, whose `.replace` raises inside the `try` |
| Timestamps.ToFloat | scripts/claude-heatmap.py:35 | `float(timestamp)`: a number is itself, `True`/`False` are 1.0/0.0, a string goes to the library's parser, and anything else raises |
| Timestamps.EpochAttempt | scripts/claude-heatmap.py:35 | the epoch parse: `fromtimestamp` of `float(timestamp)`, with no instant when `float` raises |
| Timestamps.FirstSuccess | scripts/claude-heatmap.py:29-37 | parsers are tried in order, and no parser is tried after one succeeds; the instant is the first success; with no instant, every parser failed |
| Timestamps.Strategies | scripts/claude-heatmap.py:29-37 | the two parse attempts in the order the nested `try` blocks make them: ISO first, then epoch |
| Timestamps.ParseInstant | scripts/claude-heatmap.py:29-37 | `utc_datetime` of the nested `try`/`except`: the first of the two attempts that succeeds, or none (its behaviour is stated by `IsoBeforeEpoch`) |
| Timestamps.IsoBeforeEpoch | scripts/claude-heatmap.py:29-37 | the epoch parse is attempted exactly when the ISO parse fails; the instant is the ISO result if there is one, else the epoch result |
| Timestamps.RecordTime | scripts/claude-heatmap.py:23-41 | a non-object record raises; an object is skipped iff its value is falsy or both parses fail; an unknown zone raises iff the record parsed; a truthy value that parses under a known zone is kept, as `astimezone` of the parsed instant, and every kept time is that |
| Timestamps.ConversationTimes | scripts/claude-heatmap.py:20-42 | the result of the whole call: the records handled in order, a raising record ending it with that record's error, each kept time appended (its properties are `TimesFollowRecords`, `KeptAreContributing` and `FailsAtFirstRaisingRecord`) |
| Timestamps.ParseConversationTimes | scripts/claude-heatmap.py:20-42 | the loop returns exactly `ConversationTimes`: appends in record order, `continue` on double failure, exceptions escape |
| Timestamps.FailureIsFinal | scripts/claude-heatmap.py:23-41 | once a record raises, later records change nothing |
| Timestamps.Kept | scripts/claude-heatmap.py:22-42 | the indices of the contributing records are valid and strictly increasing |
| Timestamps.KeptAreContributing | scripts/claude-heatmap.py:26-41 | an index is kept iff its record is handled without an exception and parses; records with no truthy value or two failed parses are not kept |
| Timestamps.TimesFollowRecords | scripts/claude-heatmap.py:22-42 | without an exception the result is the subsequence of the kept records' times: its k-th element is the time of the k-th kept record, and there are no more times than records |
| Timestamps.KeptBound | scripts/claude-heatmap.py:22-42 | no more records are kept than there are records |
| Timestamps.RaisingRecordFails | scripts/claude-heatmap.py:23-41 | a record that raises makes the whole call raise |
| Timestamps.FailureFromFirstRaisingRecord | scripts/claude-heatmap.py:23-41 | a raised error is the error of a record before which every record was handled |
| Timestamps.FailsAtFirstRaisingRecord | scripts/claude-heatmap.py:23-41 | the call raises iff some record raises, and then with the error of the first such record |
| Timestamps.UnknownZoneNeedsAParsedRecord | scripts/claude-heatmap.py:27-40 | when no record yields an instant, the result is empty even for an unknown zone name |
| Timestamps.EpochNumberRecord | scripts/claude-heatmap.py:26-41 | a record holding only a nonzero epoch number gets the zone-converted `fromtimestamp` instant, or is skipped |
| Calendar.MonthEndsWhereNextStarts | scripts/claude-heatmap.py:56-60 | the cumulative month table agrees with the month lengths, and December ends at the year's length |
| Calendar.MonthsInOrder | scripts/claude-heatmap.py:56-60 | an earlier month ends no later than a later month starts |
| Calendar.TotalDays | scripts/claude-heatmap.py:59 | `total_days = (end_date - start_date).days + 1`, from December 31 and January 1 of the year (shown to be 365 or 366 by `TotalDaysFollowsLeapRule`) |
| Calendar.TotalDaysFollowsLeapRule | scripts/claude-heatmap.py:56-59 | `total_days` is 366 iff the year is a Gregorian leap year, and 365 otherwise |
| Calendar.Weekday | scripts/claude-heatmap.py:65-66 | `date.weekday()`: `(toordinal + 6) % 7`, Monday 0 through Sunday 6 (its behaviour along the year is stated by `WeekdayShift` and `WeekdayAdvances`) |
| Calendar.DaysBetween | scripts/claude-heatmap.py:59-70 | `(a - b).days`: the difference of the two dates' ordinals |
| Calendar.DayOfYear | scripts/claude-heatmap.py:65 | a date's offset from January 1 lies in the year and equals days-before-month plus day minus 1 |
| Calendar.MonthWithinYear | scripts/claude-heatmap.py:56-60 | every month ends within its year |
| Calendar.MonthContaining | scripts/claude-heatmap.py:60 | an offset of the year falls in exactly the month whose day span contains it |
| Calendar.DateOfOffset | scripts/claude-heatmap.py:60 | `start_date + timedelta(days=i)` is a date of the year whose offset from January 1 is i |
| Calendar.DateOfOffsetOrdinal | scripts/claude-heatmap.py:60-65 | day i of the year has the ordinal of January 1 plus i, so `(date - start_date).days == i` |
| Calendar.DateOfOffsetInMonth | scripts/claude-heatmap.py:60 | an offset inside month m gives day offset-minus-days-before-month-plus-1 of month m |
| Calendar.DayOfYearRoundTrip | scripts/claude-heatmap.py:60-65 | adding a date's offset to January 1 gives the date back |
| Calendar.WeekdayShift | scripts/claude-heatmap.py:65-66 | a date i days after another has weekday (that weekday + i) mod 7 |
| Calendar.WeekdayAdvances | scripts/claude-heatmap.py:66 | the weekday of day i of the year is (weekday of January 1 + i) mod 7, in 0..6 |
| Calendar.DateRange | scripts/claude-heatmap.py:59-60 | `date_range` has `total_days` entries |
| Calendar.DateRangeCoversYear | scripts/claude-heatmap.py:56-60 | the range runs from January 1 to December 31 in consecutive days, has no duplicates, and holds exactly the dates of the year |
| Calendar.MonthStarts | scripts/claude-heatmap.py:90-91 | `month_starts`: the days of the date range whose day is 1, in range order (shown to be the twelve 1sts by `MonthStartsAreFirsts`) |
| Calendar.NextDayMonth | scripts/claude-heatmap.py:90-91 | the day after another starts the next month exactly when it is a 1st |
| Calendar.JanuaryFirstStartsJanuary | scripts/claude-heatmap.py:90-91 | the first day alone gives one month start, January 1 |
| Calendar.AppendMonthStart | scripts/claude-heatmap.py:90-91 | appending a 1st whose month follows the months so far keeps the starts as the 1sts of consecutive months |
| Calendar.MonthStartsBeforeStep | scripts/claude-heatmap.py:90-91 | one more day adds a month start exactly when it is a 1st, and the starts stay the 1sts of months 1 through the current month |
| Calendar.MonthStartsBeforeAreFirsts | scripts/claude-heatmap.py:90-91 | the month starts among the first n days are the 1sts of months 1 through the month of day n-1 |
| Calendar.MonthStartsAreFirsts | scripts/claude-heatmap.py:90-91 | `month_starts` has 12 entries, the k-th being the 1st of month k+1 |
| Counting.FirstIndex | scripts/claude-heatmap.py:53 | the index of the first occurrence holds the element, with no earlier occurrence |
| Counting.FirstIndexAppend | scripts/claude-heatmap.py:53 | appending elements does not move an element's first occurrence |
| Counting.AppendSeenElement | scripts/claude-heatmap.py:53 | incrementing a key already present leaves the key order unchanged and still ordered by first occurrence |
| Counting.AppendNewElement | scripts/claude-heatmap.py:53 | a new key goes at the end of the key order, which stays duplicate-free and ordered by first occurrence |
| Counting.FirstOccurrences | scripts/claude-heatmap.py:53 | the distinct elements, each from the input, covering it, ordered by first occurrence |
| Counting.Get | scripts/claude-heatmap.py:67 | `date_counts.get(date, 0)`: the stored count of a key, 0 for a missing one |
| Counting.Increment | scripts/claude-heatmap.py:53 | one `counter[x] += 1`: a present key's count grows by one; a new key is appended to the key order with count 1 |
| Counting.GetIncrement | scripts/claude-heatmap.py:53 | `counter[x] += 1` adds one to x's count and leaves every other count alone |
| Counting.CounterOf | scripts/claude-heatmap.py:53 | `Counter(s)`: one increment per element, in input order (shown to count occurrences by `CounterCountsOccurrences`) |
| Counting.CounterCountsOccurrences | scripts/claude-heatmap.py:53 | `Counter(s)` has exactly the distinct elements of s as keys, in first-occurrence order, each mapped to its number of occurrences |
| Counting.CountOccurrences | scripts/claude-heatmap.py:53 | the update loop builds exactly `Counter(s)` |
| Counting.Total | scripts/claude-heatmap.py:101 | `sum(date_counts.values())`: the counts summed over the keys (shown to be `len(s)` by `TotalCountsEveryElement`) |
| Counting.SumOverIncrement | scripts/claude-heatmap.py:101 | one increment adds one to a sum over distinct keys containing the incremented key |
| Counting.SumOverEmpty | scripts/claude-heatmap.py:101 | an empty counter sums to 0 |
| Counting.SumOverCounterOf | scripts/claude-heatmap.py:101 | summing `Counter(s)` over distinct keys that cover s gives `len(s)` |
| Counting.TotalCountsEveryElement | scripts/claude-heatmap.py:101 | `sum(Counter(s).values()) == len(s)` |
| Counting.ArgMax | scripts/claude-heatmap.py:77 | `max(keys, key=get)` has a count no smaller than any key's, and every earlier key has a smaller count |
| Counting.MostActive | scripts/claude-heatmap.py:77-78 | `max_count_date` and `max_count`: the `ArgMax` key and its count, or the fallback date and 0 for an empty counter (proved the maximum by `MostActiveIsMaximum` and the first maximum by `MostActiveIsFirstMaximum`) |
| Counting.MostActiveIsMaximum | scripts/claude-heatmap.py:77-78 | for a nonempty input, the most active key occurs, its count is its number of occurrences, and nothing occurs more often |
| Counting.EarliestAmongTied | scripts/claude-heatmap.py:77 | a key whose count beats every earlier key's first occurs no later than any key with the same count |
| Counting.MostActiveIsFirstMaximum | scripts/claude-heatmap.py:77-78 | among equally frequent elements, the most active key is the one that first occurs earliest |
| Heatmap.YearDates | scripts/claude-heatmap.py:47-49 | every kept date has the target year, there are no more of them than times, and there are none iff no time has the year |
| Heatmap.YearDatesKeepsExactlyTheYear | scripts/claude-heatmap.py:47 | each date of the year is kept as often as it occurs among all times, and no date of another year is kept |
| Heatmap.CellOf | scripts/claude-heatmap.py:65-67 | the `(week, day_of_week, count)` of one date: `((date - start_date).days + start_date.weekday()) // 7`, `date.weekday()`, `date_counts.get(date, 0)` |
| Heatmap.Grid | scripts/claude-heatmap.py:63-68 | `data`: the cell of each date of the date range, in range order (its layout is proved by `GridLayout` and `GridCellsAreDistinctAndOrdered`) |
| Heatmap.BuildGrid | scripts/claude-heatmap.py:63-68 | the append loop builds exactly the grid of the date range |
| Heatmap.GridLayout | scripts/claude-heatmap.py:65-67 | day i's cell has `0 <= day_of_week <= 6` and `week*7 + day_of_week == i + weekday(Jan 1)`, with week in 0..53 and count `get(date, 0)` |
| Heatmap.GridCellsAreDistinctAndOrdered | scripts/claude-heatmap.py:63-68 | no two days share a (week, day_of_week) square, and week never decreases |
| Heatmap.SumCellsOfDates | scripts/claude-heatmap.py:67 | the cells of a list of dates hold the sum of those dates' counts |
| Heatmap.GridHoldsEveryCountedDate | scripts/claude-heatmap.py:53-68 | the cell counts of a counted list of the year's dates add up to its length |
| Heatmap.LabelOf | scripts/claude-heatmap.py:93-94 | the label of one month start: column `(month_start - start_date).days // 7` and the month's abbreviated name |
| Heatmap.Labels | scripts/claude-heatmap.py:90-94 | there are twelve labels; the k-th is named after month k+1 and is drawn over column `days_before_month // 7`, with no shift for the weekday of January 1 |
| Heatmap.MonthStartOffset | scripts/claude-heatmap.py:93 | the 1st of month m lies days-before-month days after January 1 |
| Heatmap.MonthLabelsAsWritten | scripts/claude-heatmap.py:90-94 | there are 12 labels, the k-th in column `days_before_month // 7` with the name of month k+1; that column is the column of the month's 1st or the one before it |
| Heatmap.LabelCanMissItsMonthColumn | scripts/claude-heatmap.py:65-93 | in a common year starting on a Wednesday, April's label is in column 12 while April 1 is in column 13 |
| Heatmap.Year2025StartsOnWednesday | scripts/claude-heatmap.py:127 | 2025, the year main draws, is such a year |
| Heatmap.WeeksInYear | scripts/claude-heatmap.py:70 | `weeks_in_year = (end_date - start_date).days // 7 + 1` as written (shown to be 53 in every year by `WeeksInYearIsAlways53`) |
| Heatmap.WeeksInYearIsAlways53 | scripts/claude-heatmap.py:70 | `weeks_in_year == (total_days - 1) // 7 + 1 == 53` in every year |
| Heatmap.LastCellPastWeeksInYear | scripts/claude-heatmap.py:65-70 | in 2012 the last cell is in column 53, which is `weeks_in_year` itself |
| Heatmap.GridColumns | scripts/claude-heatmap.py:65-70 | the corrected column count `(total_days - 1 + weekday(Jan 1)) // 7 + 1` (shown to hold every cell, and to be 53 or 54, by `GridFitsColumns`) |
| Heatmap.GridFitsColumns | scripts/claude-heatmap.py:65-70 | every cell's column is below `GridColumns` and the last day is in its last column; that count is 53 or 54 |
| Heatmap.HeatmapOf | scripts/claude-heatmap.py:44-101 | the outcome of `create_year_heatmap` without drawing: no figure when no time is in the year, else the grid, the labels, `weeks_in_year`, the title total and the most active day with its count (its properties are `NothingDrawnIffYearEmpty`, `DrawnTotals` and `DrawnMostActive`) |
| Heatmap.CreateYearHeatmap | scripts/claude-heatmap.py:44-101 | the statements of the function compute exactly `HeatmapOf` |
| Heatmap.NothingDrawnIffYearEmpty | scripts/claude-heatmap.py:47-51 | nothing is drawn iff no time falls in the year |
| Heatmap.GridCountsOccurrences | scripts/claude-heatmap.py:53-67 | each cell holds its date's number of occurrences, which is 0 for a date never seen |
| Heatmap.DrawnTotals | scripts/claude-heatmap.py:47-101 | when drawn: the title total is the number of times in the year, there is one cell per day of the year with that day's count, and the cells add up to the total |
| Heatmap.DateCountsKeysInYear | scripts/claude-heatmap.py:47-53 | every key of `date_counts` lies in the target year |
| Heatmap.DrawnMostActive | scripts/claude-heatmap.py:77-102 | the most active day is in the year and has conversations; its count is its number of conversations; no day has more; among equally busy days it is the first seen among the year's dates |

## Left out

- Reading and decoding the JSON file (`load_claude_conversations`), `main` and the hard-coded folder, zone and year (scripts/claude-heatmap.py:1-2, 14-18, 118-131). These are I/O and configuration. The model takes the decoded records as `Json` values.
- The internals of `datetime.fromisoformat`, `float` on a string, `datetime.fromtimestamp`, `pytz.timezone` and `astimezone` are foreign library calls. They are the fields of `Library`. `astimezone` is total there: an instant that converts outside years 1-9999 is not modelled as raising.
- Floats are modelled as reals. NaN and infinities in the epoch path are not modelled.
- `np.percentile` and the cell colour `(count + 1) / p90_count` (scripts/claude-heatmap.py:79-80, 84) are floating point. The rule that a cell is `'lightgray'` exactly when its count is 0 is not stated either.
- All matplotlib drawing (scripts/claude-heatmap.py:73-75, 85-87, 94-116): figure, patches, text positions, axis limits, ticks, colorbar, `show`. The `print` of the empty-year message becomes the `NoConversations` result.
- `strftime('%b')` depends on the locale. The model uses the C-locale English abbreviations.
- Heatmap.HeatmapOf and Heatmap.CreateYearHeatmap keep the `if date_counts else ...` fallbacks of lines 77-78 through `Counting.MostActive`. Those branches cannot be reached, because the function has already returned when no date is in the year.
- Heatmap.HeatmapOf returns the label column and month name. The label's drawn x position `week + 0.5` is drawing and is left out.
- Timestamps.RecordTime does not validate the zone name before any record is read. An unknown zone name raises only when evaluated, and `pytz.timezone` is evaluated at line 40, after a record has parsed. With no parseable record, an unknown zone gives an empty list (`UnknownZoneNeedsAParsedRecord`) instead of an error.
- Timestamps.RecordTime treats a record that is not a JSON object as raising (`conv.get` fails, line 26, outside any `try`). A truthy non-string value skips the ISO attempt (`.replace` raises inside the `try`) and goes to `float`, where `True` gives 1.0.

## Findings

| source | as written | input that shows it | evidently intended | confidence | as-written member | corrected member |
|---|---|---|---|---|---|---|
| scripts/claude-heatmap.py:70 | `weeks_in_year = (end_date - start_date).days // 7 + 1` ignores the weekday of January 1, so it is 53 in every year, but the cells use `(offset + weekday(Jan 1)) // 7` | year 2012 (leap, starts on a Sunday): December 31 is in column 53, and the x-axis ends at `weeks_in_year + 0.5 = 53.5`, so that cell is cut in half | the number of week columns the cells occupy, `(total_days - 1 + weekday(Jan 1)) // 7 + 1`, which is 54 for 2012 | medium, not executed | Heatmap.LastCellPastWeeksInYear | Heatmap.GridFitsColumns |

`Heatmap.WeeksInYear` keeps the value as written, because it is what the source stores in
`weeks_in_year`. `Heatmap.GridColumns` is the corrected width: every cell fits below it.
Only the axis limit, which is drawing, would use it.
