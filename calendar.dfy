/**
  The part of Python's `datetime.date` that the heatmap relies on: proleptic Gregorian
  dates between years 1 and 9999, their ordinals (`toordinal`), `weekday()`, the number of
  days between two dates, and `date(y, 1, 1) + timedelta(days=i)` within one year.
  Everything is integer arithmetic over the tables Python's datetime module uses.
*/
module Calendar {

  /** datetime.MINYEAR and datetime.MAXYEAR */
  const MinYear := 1
  const MaxYear := 9999

  predicate ValidYear(y: int) {
    MinYear <= y <= MaxYear
  }

  predicate IsLeap(y: int) {
    y % 4 == 0 && (y % 100 != 0 || y % 400 == 0)
  }

  function DaysInYear(y: int): int {
    if IsLeap(y) then 366 else 365
  }

  function DaysInMonth(y: int, m: int): int
    requires 1 <= m <= 12
  {
    if m == 2 then (if IsLeap(y) then 29 else 28)
    else if m == 4 || m == 6 || m == 9 || m == 11 then 30
    else 31
  }

  /** Days of year y that come before month m: the cumulative table of the datetime module. */
  function DaysBeforeMonth(y: int, m: int): int
    requires 1 <= m <= 12
  {
    [0, 31, 59, 90, 120, 151, 181, 212, 243, 273, 304, 334][m - 1]
      + (if m > 2 && IsLeap(y) then 1 else 0)
  }

  /** The cumulative table agrees with the month lengths: month m ends where month m + 1 starts. */
  lemma MonthEndsWhereNextStarts(y: int, m: int)
    requires 1 <= m <= 12
    ensures DaysBeforeMonth(y, m) + DaysInMonth(y, m)
            == if m == 12 then DaysInYear(y) else DaysBeforeMonth(y, m + 1)
  {
  }

  /** Months do not overlap: an earlier month ends no later than a later one starts. */
  lemma MonthsInOrder(y: int, m1: int, m2: int)
    requires 1 <= m1 < m2 <= 12
    ensures DaysBeforeMonth(y, m1) + DaysInMonth(y, m1) <= DaysBeforeMonth(y, m2)
  {
  }

  datatype Ymd = Ymd(year: int, month: int, day: int)

  predicate ValidDate(d: Ymd) {
    ValidYear(d.year) && 1 <= d.month <= 12 && 1 <= d.day <= DaysInMonth(d.year, d.month)
  }

  /** A value of Python's `datetime.date`. */
  type Date = d: Ymd | ValidDate(d) witness Ymd(1, 1, 1)

  /**
    A timezone-aware datetime after conversion to the target zone. The heatmap reads only its
    calendar date (`.date()`) and that date's year (`.year`).
  */
  datatype LocalDateTime = LocalDateTime(date: Date, microsecondOfDay: nat)

  /** Days in the years before year y, counted from 0001-01-01. */
  function DaysBeforeYear(y: int): int {
    var p := y - 1;
    365 * p + p / 4 - p / 100 + p / 400
  }

  /** date.toordinal(): 0001-01-01 is day 1. */
  function Ordinal(d: Date): int {
    DaysBeforeYear(d.year) + DaysBeforeMonth(d.year, d.month) + d.day
  }

  /** date.weekday(): Monday is 0, Sunday is 6. */
  function Weekday(d: Date): int {
    (Ordinal(d) + 6) % 7
  }

  /** (a - b).days */
  function DaysBetween(a: Date, b: Date): int {
    Ordinal(a) - Ordinal(b)
  }

  /** date(y, 1, 1) */
  function FirstDay(y: int): Date
    requires ValidYear(y)
  {
    Ymd(y, 1, 1)
  }

  /** date(y, 12, 31) */
  function LastDay(y: int): Date
    requires ValidYear(y)
  {
    Ymd(y, 12, 31)
  }

  /** total_days = (date(y, 12, 31) - date(y, 1, 1)).days + 1 */
  function TotalDays(y: int): int
    requires ValidYear(y)
  {
    DaysBetween(LastDay(y), FirstDay(y)) + 1
  }

  /** A year has 366 days under the Gregorian leap rule and 365 otherwise. */
  lemma TotalDaysFollowsLeapRule(y: int)
    requires ValidYear(y)
    ensures TotalDays(y) == DaysInYear(y)
    ensures TotalDays(y) == 366 <==> (y % 4 == 0 && (y % 100 != 0 || y % 400 == 0))
    ensures TotalDays(y) == 365 || TotalDays(y) == 366
  {
    MonthEndsWhereNextStarts(y, 12);
  }

  /** (d - date(d.year, 1, 1)).days: how many days into its year a date lies. */
  function DayOfYear(d: Date): (i: int)
    ensures 0 <= i < DaysInYear(d.year)
    ensures i == DaysBeforeMonth(d.year, d.month) + d.day - 1
  {
    MonthWithinYear(d.year, d.month);
    DaysBetween(d, FirstDay(d.year))
  }

  /** Every month ends no later than the year does. */
  lemma MonthWithinYear(y: int, m: int)
    requires 1 <= m <= 12
    ensures DaysBeforeMonth(y, m) + DaysInMonth(y, m) <= DaysInYear(y)
  {
    MonthEndsWhereNextStarts(y, 12);
    if m < 12 {
      MonthsInOrder(y, m, 12);
    }
  }

  /** The month, from m on, that holds day i of year y (counted from 0). */
  function MonthContaining(y: int, i: int, m: int): (r: int)
    requires 1 <= m <= 12
    requires DaysBeforeMonth(y, m) <= i < DaysInYear(y)
    ensures m <= r <= 12
    ensures DaysBeforeMonth(y, r) <= i < DaysBeforeMonth(y, r) + DaysInMonth(y, r)
    decreases 12 - m
  {
    MonthEndsWhereNextStarts(y, m);
    if i < DaysBeforeMonth(y, m) + DaysInMonth(y, m) then m
    else MonthContaining(y, i, m + 1)
  }

  /** date(y, 1, 1) + timedelta(days=i) for a day i that stays within year y. */
  function DateOfOffset(y: int, i: int): (d: Date)
    requires ValidYear(y) && 0 <= i < DaysInYear(y)
    ensures d.year == y && DayOfYear(d) == i
  {
    var m := MonthContaining(y, i, 1);
    Ymd(y, m, i - DaysBeforeMonth(y, m) + 1)
  }

  /** Day i of year y lies i days after January 1: (date - date(y, 1, 1)).days == i. */
  lemma DateOfOffsetOrdinal(y: int, i: int)
    requires ValidYear(y) && 0 <= i < DaysInYear(y)
    ensures Ordinal(DateOfOffset(y, i)) == Ordinal(FirstDay(y)) + i
  {
  }

  /** A day that falls inside month m is the (i - start of m + 1)-th of month m. */
  lemma DateOfOffsetInMonth(y: int, m: int, i: int)
    requires ValidYear(y) && 1 <= m <= 12
    requires DaysBeforeMonth(y, m) <= i < DaysBeforeMonth(y, m) + DaysInMonth(y, m)
    ensures 0 <= i < DaysInYear(y)
    ensures DateOfOffset(y, i) == Ymd(y, m, i - DaysBeforeMonth(y, m) + 1)
  {
    MonthEndsWhereNextStarts(y, 12);
    if m < 12 {
      MonthsInOrder(y, m, 12);
    }
    var r := MonthContaining(y, i, 1);
    if r < m {
      MonthsInOrder(y, r, m);
    } else if m < r {
      MonthsInOrder(y, m, r);
    }
  }

  /** Day of year and date are inverse to each other: every date of year y is reached. */
  lemma DayOfYearRoundTrip(d: Date)
    ensures DateOfOffset(d.year, DayOfYear(d)) == d
  {
    DateOfOffsetInMonth(d.year, d.month, DayOfYear(d));
  }

  /** Shifting by i commutes with reduction modulo 7. */
  lemma ModSevenShift(a: int, i: int)
    ensures (a + i) % 7 == (a % 7 + i) % 7
  {
    var q := a / 7;
    assert a == 7 * q + a % 7;
    assert a + i == 7 * q + (a % 7 + i);
  }

  /** Dates i days apart are i weekdays apart, modulo 7. */
  lemma WeekdayShift(a: Date, b: Date, i: int)
    requires Ordinal(a) == Ordinal(b) + i
    ensures Weekday(a) == (Weekday(b) + i) % 7
  {
    var f := Ordinal(b) + 6;
    assert Weekday(a) == (f + i) % 7;
    ModSevenShift(f, i);
  }

  /** Adding i days moves the weekday on by i, modulo 7. */
  lemma WeekdayAdvances(y: int, i: int)
    requires ValidYear(y) && 0 <= i < DaysInYear(y)
    ensures 0 <= Weekday(DateOfOffset(y, i)) <= 6
    ensures Weekday(DateOfOffset(y, i)) == (Weekday(FirstDay(y)) + i) % 7
  {
    var d := DateOfOffset(y, i);
    assert 0 <= Weekday(d) <= 6;
    assert Ordinal(d) == Ordinal(FirstDay(y)) + i by {
      DateOfOffsetOrdinal(y, i);
    }
    WeekdayShift(d, FirstDay(y), i);
  }

  /** [date(y, 1, 1) + timedelta(days=i) for i in range(total_days)] */
  function DateRange(y: int): (r: seq<Date>)
    requires ValidYear(y)
    ensures |r| == TotalDays(y) == DaysInYear(y)
  {
    TotalDaysFollowsLeapRule(y);
    seq(TotalDays(y), i requires 0 <= i < TotalDays(y) => DateOfOffset(y, i))
  }

  /**
    The date range runs from January 1 to December 31 one day at a time; it holds every date
    of year y exactly once and no other date.
  */
  lemma DateRangeCoversYear(y: int)
    requires ValidYear(y)
    ensures var r := DateRange(y);
      && r[0] == FirstDay(y)
      && r[|r| - 1] == LastDay(y)
      && (forall i :: 0 <= i < |r| - 1 ==> Ordinal(r[i + 1]) == Ordinal(r[i]) + 1)
      && (forall i, j :: 0 <= i < j < |r| ==> r[i] != r[j])
      && (forall d: Date :: d in r <==> d.year == y)
  {
    var r := DateRange(y);
    DayOfYearRoundTrip(FirstDay(y));
    DayOfYearRoundTrip(LastDay(y));
    MonthEndsWhereNextStarts(y, 12);
    forall i | 0 <= i < |r| - 1 ensures Ordinal(r[i + 1]) == Ordinal(r[i]) + 1 {
      DateOfOffsetOrdinal(y, i);
      DateOfOffsetOrdinal(y, i + 1);
    }
    forall i, j | 0 <= i < j < |r| ensures r[i] != r[j] {
      assert DayOfYear(r[i]) == i && DayOfYear(r[j]) == j;
    }
    forall d: Date | d.year == y ensures d in r {
      DayOfYearRoundTrip(d);
      assert r[DayOfYear(d)] == d;
    }
  }

  /**
    The month starts among the first n days of year y, in order:
    [date for date in the first n of the date range if date.day == 1]
  */
  function MonthStartsBefore(y: int, n: int): seq<Date>
    requires ValidYear(y) && 0 <= n <= DaysInYear(y)
  {
    if n == 0 then []
    else
      var d := DateOfOffset(y, n - 1);
      MonthStartsBefore(y, n - 1) + (if d.day == 1 then [d] else [])
  }

  /** month_starts: every date of year y that is the first of its month, in calendar order. */
  function MonthStarts(y: int): seq<Date>
    requires ValidYear(y)
  {
    MonthStartsBefore(y, DaysInYear(y))
  }

  /** The day after day n - 1 starts a new month exactly when it is the 1st; otherwise the month stays. */
  lemma NextDayMonth(y: int, n: int)
    requires ValidYear(y) && 1 <= n < DaysInYear(y)
    ensures DateOfOffset(y, n).day == 1 ==> DateOfOffset(y, n).month == DateOfOffset(y, n - 1).month + 1
    ensures DateOfOffset(y, n).day != 1 ==> DateOfOffset(y, n).month == DateOfOffset(y, n - 1).month
  {
    var d := DateOfOffset(y, n);
    if d.day == 1 {
      assert d.month > 1;
      MonthEndsWhereNextStarts(y, d.month - 1);
      DateOfOffsetInMonth(y, d.month - 1, n - 1);
    } else {
      DateOfOffsetInMonth(y, d.month, n - 1);
    }
  }

  /**
    Appending day d to the 1sts of the months before d's month, when d is a 1st, gives the
    1sts of the months up to d's month.
  */
  lemma AppendMonthStart(prev: seq<Date>, d: Date, y: int, prevMonth: int)
    requires |prev| == prevMonth
    requires forall k :: 0 <= k < |prev| ==> prev[k] == Ymd(y, k + 1, 1)
    requires d.year == y
    requires d.month == prevMonth + (if d.day == 1 then 1 else 0)
    ensures var r := prev + (if d.day == 1 then [d] else []);
      && |r| == d.month
      && forall k :: 0 <= k < |r| ==> r[k] == Ymd(y, k + 1, 1)
  {
  }

  /**
    The month starts among the first n days of year y are the 1sts of January up to the month
    of day n - 1, one each, in order.
  */
  ghost predicate FirstsUpTo(y: int, n: int)
    requires ValidYear(y) && 1 <= n <= DaysInYear(y)
  {
    && |MonthStartsBefore(y, n)| == DateOfOffset(y, n - 1).month
    && forall k :: 0 <= k < |MonthStartsBefore(y, n)| ==> MonthStartsBefore(y, n)[k] == Ymd(y, k + 1, 1)
  }

  /** The first day of the year is the first month start. */
  lemma JanuaryFirstStartsJanuary(y: int)
    requires ValidYear(y)
    ensures FirstsUpTo(y, 1)
  {
    DateOfOffsetInMonth(y, 1, 0);
    assert MonthStartsBefore(y, 1) == [DateOfOffset(y, 0)];
  }

  /** One more day of the year (day m, n == m + 1) adds its date to the month starts exactly when it is a 1st. */
  lemma MonthStartsBeforeStep(y: int, m: int, n: int)
    requires ValidYear(y) && 1 <= m && n == m + 1 && n <= DaysInYear(y)
    requires FirstsUpTo(y, m)
    ensures FirstsUpTo(y, n)
  {
    var prev := MonthStartsBefore(y, m);
    var d := DateOfOffset(y, m);
    assert MonthStartsBefore(y, n) == prev + (if d.day == 1 then [d] else []);
    assert d.year == y && d.month == DateOfOffset(y, m - 1).month + (if d.day == 1 then 1 else 0) by {
      NextDayMonth(y, m);
    }
    AppendMonthStart(prev, d, y, DateOfOffset(y, m - 1).month);
  }

  /** By induction on n, the month starts of the first n days are as FirstsUpTo says. */
  lemma {:induction false} MonthStartsBeforeAreFirsts(y: int, n: int)
    requires ValidYear(y) && 1 <= n <= DaysInYear(y)
    ensures FirstsUpTo(y, n)
  {
    if n == 1 {
      JanuaryFirstStartsJanuary(y);
    } else {
      MonthStartsBeforeAreFirsts(y, n - 1);
      MonthStartsBeforeStep(y, n - 1, n);
    }
  }

  /** Exactly twelve month starts are produced: the first of each month, January to December. */
  lemma MonthStartsAreFirsts(y: int)
    requires ValidYear(y)
    ensures |MonthStarts(y)| == 12
    ensures forall k :: 0 <= k < 12 ==> MonthStarts(y)[k] == Ymd(y, k + 1, 1)
  {
    MonthEndsWhereNextStarts(y, 12);
    DateOfOffsetInMonth(y, 12, DaysInYear(y) - 1);
    MonthStartsBeforeAreFirsts(y, DaysInYear(y));
  }
}
