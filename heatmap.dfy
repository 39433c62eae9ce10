/**
  The non-drawing part of create_year_heatmap: which conversation times fall in the year, how
  many fall on each date, the calendar grid of (week, day of week, count) cells, the month
  label columns, weeks_in_year, the most active day and the total shown in the title.
*/
module Heatmap {
  import opened Calendar
  import opened Counting

  /** [convo.date() for convo in convo_times if convo.year == year] */
  function YearDates(times: seq<LocalDateTime>, year: int): (r: seq<Date>)
    ensures forall i :: 0 <= i < |r| ==> r[i].year == year
    ensures |r| <= |times|
    ensures r == [] <==> forall i :: 0 <= i < |times| ==> times[i].date.year != year
  {
    if times == [] then []
    else
      var init, t := times[..|times| - 1], times[|times| - 1];
      assert forall i :: 0 <= i < |init| ==> init[i] == times[i];
      YearDates(init, year) + (if t.date.year == year then [t.date] else [])
  }

  /** The calendar date of every conversation time, in order. */
  function DatesOf(times: seq<LocalDateTime>): (r: seq<Date>)
    ensures |r| == |times| && forall i :: 0 <= i < |r| ==> r[i] == times[i].date
  {
    seq(|times|, i requires 0 <= i < |times| => times[i].date)
  }

  /**
    The year filter keeps exactly the times of the target year: each date of that year
    appears as often as it does among all the times, and no date of another year appears.
  */
  lemma {:induction false} YearDatesKeepsExactlyTheYear(times: seq<LocalDateTime>, year: int)
    ensures forall d: Date :: multiset(YearDates(times, year))[d]
              == if d.year == year then multiset(DatesOf(times))[d] else 0
  {
    if times != [] {
      var init, t := times[..|times| - 1], times[|times| - 1];
      YearDatesKeepsExactlyTheYear(init, year);
      assert DatesOf(times) == DatesOf(init) + [t.date];
    }
  }

  /** One square of the heatmap: its column, its row and the number of conversations. */
  datatype Cell = Cell(week: int, dayOfWeek: int, count: nat)

  /**
    The cell of one date: week = ((date - start_date).days + start_date.weekday()) // 7,
    day_of_week = date.weekday(), count = date_counts.get(date, 0).
  */
  function CellOf(year: int, counts: map<Date, nat>, date: Date): Cell
    requires ValidYear(year)
  {
    var start := FirstDay(year);
    Cell((DaysBetween(date, start) + Weekday(start)) / 7, Weekday(date), Get(counts, date))
  }

  /** The cells of a list of dates, in the same order. */
  function CellsOf(year: int, counts: map<Date, nat>, dates: seq<Date>): (r: seq<Cell>)
    requires ValidYear(year)
    ensures |r| == |dates| && forall i :: 0 <= i < |r| ==> r[i] == CellOf(year, counts, dates[i])
  {
    seq(|dates|, i requires 0 <= i < |dates| => CellOf(year, counts, dates[i]))
  }

  /** data: one cell per date of the year, January 1 first. */
  function Grid(year: int, counts: map<Date, nat>): seq<Cell>
    requires ValidYear(year)
  {
    CellsOf(year, counts, DateRange(year))
  }

  /** The loop that fills data, one appended cell per date of the range. */
  method BuildGrid(year: int, counts: map<Date, nat>) returns (data: seq<Cell>)
    requires ValidYear(year)
    ensures data == Grid(year, counts)
  {
    var startDate := FirstDay(year);
    var dateRange := DateRange(year);
    data := [];
    for i := 0 to |dateRange|
      invariant |data| == i
      invariant forall k :: 0 <= k < i ==> data[k] == CellOf(year, counts, dateRange[k])
    {
      var date := dateRange[i];
      var week := (DaysBetween(date, startDate) + Weekday(startDate)) / 7;
      var dayOfWeek := Weekday(date);
      var count := Get(counts, date);
      data := data + [Cell(week, dayOfWeek, count)];
    }
  }

  /**
    The cell of day i of the year sits in row weekday (0..6) and column week with
    week * 7 + day_of_week == i + weekday(January 1), in column 0..53, and holds the count of
    its date.
  */
  lemma GridLayout(year: int, counts: map<Date, nat>, i: int)
    requires ValidYear(year) && 0 <= i < DaysInYear(year)
    ensures var c := Grid(year, counts)[i];
      && 0 <= c.dayOfWeek <= 6
      && c.week * 7 + c.dayOfWeek == i + Weekday(FirstDay(year))
      && 0 <= c.week <= 53
      && c.count == Get(counts, DateOfOffset(year, i))
  {
    WeekdayAdvances(year, i);
    DateOfOffsetOrdinal(year, i);
    var wd0 := Weekday(FirstDay(year));
    var c := Grid(year, counts)[i];
    assert DateRange(year)[i] == DateOfOffset(year, i);
    assert c.week == (i + wd0) / 7;
    assert c.dayOfWeek == (i + wd0) % 7;
  }

  /**
    No two days share a square, and the columns never go back: a later day is in the same
    week column or a later one.
  */
  lemma GridCellsAreDistinctAndOrdered(year: int, counts: map<Date, nat>)
    requires ValidYear(year)
    ensures var g := Grid(year, counts);
      forall i, j :: 0 <= i < j < |g| ==>
        && g[i].week <= g[j].week
        && (g[i].week, g[i].dayOfWeek) != (g[j].week, g[j].dayOfWeek)
  {
    var g := Grid(year, counts);
    forall i, j | 0 <= i < j < |g|
      ensures g[i].week <= g[j].week
      ensures (g[i].week, g[i].dayOfWeek) != (g[j].week, g[j].dayOfWeek)
    {
      GridLayout(year, counts, i);
      GridLayout(year, counts, j);
    }
  }

  /** The sum of the counts of a list of cells. */
  function SumCells(cells: seq<Cell>): nat {
    if cells == [] then 0
    else SumCells(cells[..|cells| - 1]) + cells[|cells| - 1].count
  }

  /** The cells of a list of dates hold, between them, the sum of the counts of those dates. */
  lemma {:induction false} SumCellsOfDates(year: int, counts: map<Date, nat>, dates: seq<Date>)
    requires ValidYear(year)
    ensures SumCells(CellsOf(year, counts, dates)) == SumOver(dates, counts)
  {
    if dates != [] {
      var init := dates[..|dates| - 1];
      SumCellsOfDates(year, counts, init);
      assert CellsOf(year, counts, dates)[..|dates| - 1] == CellsOf(year, counts, init);
    }
  }

  /**
    Counting a list of dates of the year and laying the counts out on the grid puts every
    counted date in exactly one cell: the cell counts add up to the number of dates.
  */
  lemma GridHoldsEveryCountedDate(year: int, dates: seq<Date>)
    requires ValidYear(year)
    requires forall i :: 0 <= i < |dates| ==> dates[i].year == year
    ensures SumCells(Grid(year, CounterOf(dates).counts)) == |dates|
  {
    var r := DateRange(year);
    assert Distinct(r) && forall i :: 0 <= i < |dates| ==> dates[i] in r by {
      DateRangeCoversYear(year);
    }
    SumCellsOfDates(year, CounterOf(dates).counts, r);
    SumOverCounterOf(r, dates);
  }

  /** The three-letter month names that strftime('%b') gives in the C locale. */
  const MonthNames: seq<string> :=
    ["Jan", "Feb", "Mar", "Apr", "May", "Jun", "Jul", "Aug", "Sep", "Oct", "Nov", "Dec"]

  /** A month label: the column it is drawn over and its text. */
  datatype MonthLabel = MonthLabel(week: int, name: string)

  /**
    The label of a month start: week = (month_start - start_date).days // 7, with no shift
    for the weekday of January 1, and the month's name.
  */
  function LabelOf(year: int, monthStart: Date): MonthLabel
    requires ValidYear(year)
  {
    MonthLabel(DaysBetween(monthStart, FirstDay(year)) / 7, MonthNames[monthStart.month - 1])
  }

  /** The number of whole days between January 1 and the 1st of month m. */
  lemma MonthStartOffset(year: int, m: int)
    requires ValidYear(year) && 1 <= m <= 12
    ensures DaysBetween(Ymd(year, m, 1), FirstDay(year)) == DaysBeforeMonth(year, m)
  {
  }

  /**
    The labels of every month start of the year: twelve of them, the k-th named after
    month k + 1 and drawn over column days_before_month // 7.
  */
  function Labels(year: int): (r: seq<MonthLabel>)
    requires ValidYear(year)
    ensures |r| == 12
    ensures forall k :: 0 <= k < 12 ==>
      r[k] == MonthLabel(DaysBeforeMonth(year, k + 1) / 7, MonthNames[k])
  {
    var starts := MonthStarts(year);
    MonthStartsAreFirsts(year);
    assert forall m :: 1 <= m <= 12 ==>
        DaysBetween(Ymd(year, m, 1), FirstDay(year)) == DaysBeforeMonth(year, m) by {
      forall m | 1 <= m <= 12 {
        MonthStartOffset(year, m);
      }
    }
    seq(|starts|, k requires 0 <= k < |starts| => LabelOf(year, starts[k]))
  }

  /**
    There are twelve labels, one per month in order, each in column
    days_before_month // 7; that column is the column of the month's 1st on the grid or the
    one before it.
  */
  lemma MonthLabelsAsWritten(year: int, counts: map<Date, nat>)
    requires ValidYear(year)
    ensures |Labels(year)| == 12
    ensures forall k :: 0 <= k < 12 ==>
      && Labels(year)[k] == MonthLabel(DaysBeforeMonth(year, k + 1) / 7, MonthNames[k])
      && 0 <= DaysBeforeMonth(year, k + 1) < DaysInYear(year)
      && Labels(year)[k].week <= Grid(year, counts)[DaysBeforeMonth(year, k + 1)].week
                              <= Labels(year)[k].week + 1
  {
    MonthStartsAreFirsts(year);
    forall k | 0 <= k < 12
      ensures Labels(year)[k] == MonthLabel(DaysBeforeMonth(year, k + 1) / 7, MonthNames[k])
      ensures 0 <= DaysBeforeMonth(year, k + 1) < DaysInYear(year)
      ensures Labels(year)[k].week <= Grid(year, counts)[DaysBeforeMonth(year, k + 1)].week
                                   <= Labels(year)[k].week + 1
    {
      MonthStartOffset(year, k + 1);
      MonthWithinYear(year, k + 1);
      GridLayout(year, counts, DaysBeforeMonth(year, k + 1));
    }
  }

  /**
    The label rule differs from the cell rule: in a common year that starts on a Wednesday,
    the April label is drawn over column 12 while April 1 sits in column 13.
  */
  lemma LabelCanMissItsMonthColumn(year: int, counts: map<Date, nat>)
    requires ValidYear(year) && !IsLeap(year) && Weekday(FirstDay(year)) == 2
    ensures |Labels(year)| == 12
    ensures Labels(year)[3].week == 12
    ensures Grid(year, counts)[DaysBeforeMonth(year, 4)].week == 13
  {
    MonthStartsAreFirsts(year);
    MonthStartOffset(year, 4);
    GridLayout(year, counts, DaysBeforeMonth(year, 4));
  }

  /** 2025 is such a year. */
  lemma Year2025StartsOnWednesday()
    ensures ValidYear(2025) && !IsLeap(2025) && Weekday(FirstDay(2025)) == 2
  {
  }

  /** weeks_in_year = (end_date - start_date).days // 7 + 1 */
  function WeeksInYear(year: int): int
    requires ValidYear(year)
  {
    DaysBetween(LastDay(year), FirstDay(year)) / 7 + 1
  }

  /** weeks_in_year is (total_days - 1) // 7 + 1, which is 53 in every year. */
  lemma WeeksInYearIsAlways53(year: int)
    requires ValidYear(year)
    ensures WeeksInYear(year) == (TotalDays(year) - 1) / 7 + 1 == 53
  {
    TotalDaysFollowsLeapRule(year);
  }

  /**
    In 2012, a leap year that starts on a Sunday, December 31 falls in column 53: column
    weeks_in_year itself, past the weeks_in_year columns the axis is sized for.
  */
  lemma LastCellPastWeeksInYear(counts: map<Date, nat>)
    ensures |Grid(2012, counts)| == 366
    ensures Grid(2012, counts)[365].week == WeeksInYear(2012) == 53
  {
    WeeksInYearIsAlways53(2012);
    assert Weekday(FirstDay(2012)) == 6;
    GridLayout(2012, counts, 365);
  }

  /** The number of week columns the cells of the year actually use. */
  function GridColumns(year: int): int
    requires ValidYear(year)
  {
    (TotalDays(year) - 1 + Weekday(FirstDay(year))) / 7 + 1
  }

  /**
    Every cell lies in a column below GridColumns and the last day lies in the last of
    them, so GridColumns is the width the grid needs.
  */
  lemma GridFitsColumns(year: int, counts: map<Date, nat>)
    requires ValidYear(year)
    ensures var g := Grid(year, counts);
      && (forall i :: 0 <= i < |g| ==> 0 <= g[i].week < GridColumns(year))
      && g[|g| - 1].week == GridColumns(year) - 1
      && 53 <= GridColumns(year) <= 54
  {
    var g := Grid(year, counts);
    TotalDaysFollowsLeapRule(year);
    forall i | 0 <= i < |g| ensures 0 <= g[i].week < GridColumns(year) {
      GridLayout(year, counts, i);
    }
    GridLayout(year, counts, |g| - 1);
  }

  /** What create_year_heatmap produces: nothing for an empty year, or the figure's data. */
  datatype Rendering =
    | NoConversations(year: int)
    | Drawn(cells: seq<Cell>, labels: seq<MonthLabel>, weeksInYear: int,
            total: nat, mostActive: Date, maxCount: nat)

  /** create_year_heatmap(convo_times, year), without the drawing. */
  function HeatmapOf(times: seq<LocalDateTime>, year: int): Rendering {
    var justDates := YearDates(times, year);
    if justDates == [] then NoConversations(year)
    else
      assert ValidYear(justDates[0].year);
      var dateCounts := CounterOf(justDates);
      var (maxCountDate, maxCount) := MostActive(dateCounts, FirstDay(year));
      Drawn(Grid(year, dateCounts.counts), Labels(year), WeeksInYear(year),
            Total(dateCounts), maxCountDate, maxCount)
  }

  /** The statements of create_year_heatmap in order, up to the title. */
  method CreateYearHeatmap(times: seq<LocalDateTime>, year: int) returns (r: Rendering)
    ensures r == HeatmapOf(times, year)
  {
    var justDates := YearDates(times, year);
    if justDates == [] {
      return NoConversations(year);
    }
    assert ValidYear(justDates[0].year);
    var dateCounts := CountOccurrences(justDates);
    var data := BuildGrid(year, dateCounts.counts);
    var weeksInYear := WeeksInYear(year);
    var (maxCountDate, maxCount) := MostActive(dateCounts, FirstDay(year));
    var labels := Labels(year);
    r := Drawn(data, labels, weeksInYear, Total(dateCounts), maxCountDate, maxCount);
  }

  /** Nothing is drawn exactly when no conversation time falls in the year. */
  lemma NothingDrawnIffYearEmpty(times: seq<LocalDateTime>, year: int)
    ensures HeatmapOf(times, year).NoConversations?
            <==> forall i :: 0 <= i < |times| ==> times[i].date.year != year
  {
  }

  /** Each cell of the grid of Counter(dates) holds the number of times its date occurs. */
  lemma GridCountsOccurrences(year: int, dates: seq<Date>)
    requires ValidYear(year)
    ensures var g := Grid(year, CounterOf(dates).counts);
      forall i :: 0 <= i < |g| ==> g[i].count == multiset(dates)[DateOfOffset(year, i)]
  {
    var g := Grid(year, CounterOf(dates).counts);
    forall i | 0 <= i < |g| ensures g[i].count == multiset(dates)[DateOfOffset(year, i)] {
      GridLayout(year, CounterOf(dates).counts, i);
      CounterCountsOccurrences(dates);
    }
  }

  /**
    When the year has conversations: the total in the title is the number of conversation
    times in the year, the grid has one cell per day of the year holding that day's number
    of conversations, and the cell counts add up to the total.
  */
  lemma DrawnTotals(times: seq<LocalDateTime>, year: int)
    requires HeatmapOf(times, year).Drawn?
    ensures ValidYear(year)
    ensures var h := HeatmapOf(times, year);
      && h.total == |YearDates(times, year)|
      && |h.cells| == DaysInYear(year)
      && SumCells(h.cells) == h.total
      && forall i :: 0 <= i < |h.cells| ==>
           h.cells[i].count == multiset(YearDates(times, year))[DateOfOffset(year, i)]
  {
    var dates := YearDates(times, year);
    assert ValidYear(dates[0].year);
    var h := HeatmapOf(times, year);
    assert h.cells == Grid(year, CounterOf(dates).counts);
    assert h.total == Total(CounterOf(dates));
    TotalCountsEveryElement(dates);
    GridHoldsEveryCountedDate(year, dates);
    GridCountsOccurrences(year, dates);
  }

  /**
    Every key of date_counts is a date of the year, each counting the times that fall on it.
  */
  lemma DateCountsKeysInYear(times: seq<LocalDateTime>, year: int)
    ensures var c := CounterOf(YearDates(times, year));
      forall i :: 0 <= i < |c.keys| ==> c.keys[i].year == year
  {
    CounterCountsOccurrences(YearDates(times, year));
  }

  /**
    The most active day of the title is a day of the year with conversations, its count is
    its number of conversations, no day has more, and among equally busy days it is the one
    met first among the year's dates.
  */
  lemma DrawnMostActive(times: seq<LocalDateTime>, year: int)
    requires HeatmapOf(times, year).Drawn?
    ensures var h, dates := HeatmapOf(times, year), YearDates(times, year);
      && h.mostActive in dates
      && h.mostActive.year == year
      && h.maxCount == multiset(dates)[h.mostActive] >= 1
      && (forall d :: multiset(dates)[d] <= h.maxCount)
      && (forall d :: d in dates && multiset(dates)[d] == h.maxCount ==>
            FirstIndex(dates, h.mostActive) <= FirstIndex(dates, d))
  {
    var dates := YearDates(times, year);
    assert ValidYear(dates[0].year);
    MostActiveIsMaximum(dates, FirstDay(year));
    MostActiveIsFirstMaximum(dates, FirstDay(year));
  }
}
