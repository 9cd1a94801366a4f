/**
 * Calendar arithmetic on the proleptic Gregorian calendar, standing in for the
 * `dayjs` operations and the JavaScript `Date` arithmetic the date components
 * use: month lengths, stepping by days, adding months or setting the year with
 * the day clamped to the end of the target month, and the day of the week.
 */
module Gregorian {

  predicate IsLeapYear(y: int) {
    y % 4 == 0 && (y % 100 != 0 || y % 400 == 0)
  }

  function MonthLength(y: int, m: int): (n: int)
    requires 1 <= m <= 12
    ensures 28 <= n <= 31
    ensures m == 2 ==> (n == 29 <==> IsLeapYear(y))
    ensures m != 2 ==> (n == 30 <==> m in {4, 6, 9, 11})
  {
    if m == 2 then (if IsLeapYear(y) then 29 else 28)
    else if m == 4 || m == 6 || m == 9 || m == 11 then 30
    else 31
  }

  /** A calendar date; `month` is 1-based, as in a `YYYY-MM-DD` string. */
  datatype Date = Date(year: int, month: int, day: int)

  predicate Valid(d: Date) {
    1 <= d.month <= 12 && 1 <= d.day <= MonthLength(d.year, d.month)
  }

  predicate SameMonth(a: Date, b: Date) {
    a.year == b.year && a.month == b.month
  }

  /** Days from 1 January of year 1 to 1 January of year `y`. */
  function DaysBeforeYear(y: int): int {
    var p := y - 1;
    365 * p + p / 4 - p / 100 + p / 400
  }

  /** Days from 1 January to the first of month `m` in year `y`. */
  function DaysBeforeMonth(y: int, m: int): int
    requires 1 <= m <= 13
    decreases m
  {
    if m == 1 then 0 else DaysBeforeMonth(y, m - 1) + MonthLength(y, m - 1)
  }

  /** The number of the day counted from 1 January of year 1 (day 0). */
  function DayNumber(d: Date): int
    requires 1 <= d.month <= 12
  {
    DaysBeforeYear(d.year) + DaysBeforeMonth(d.year, d.month) + d.day - 1
  }

  /** 0 is Sunday, 1 Monday, ..., 6 Saturday; 1 January of year 1 was a Monday. */
  function Weekday(d: Date): (w: int)
    requires 1 <= d.month <= 12
    ensures 0 <= w < 7
  {
    (DayNumber(d) + 1) % 7
  }

  function NextDay(d: Date): (r: Date)
    requires Valid(d)
    ensures Valid(r)
  {
    if d.day < MonthLength(d.year, d.month) then d.(day := d.day + 1)
    else if d.month < 12 then Date(d.year, d.month + 1, 1)
    else Date(d.year + 1, 1, 1)
  }

  function PrevDay(d: Date): (r: Date)
    requires Valid(d)
    ensures Valid(r)
  {
    if d.day > 1 then d.(day := d.day - 1)
    else if d.month > 1 then Date(d.year, d.month - 1, MonthLength(d.year, d.month - 1))
    else Date(d.year - 1, 12, 31)
  }

  /** `dayjs(d).add(n, "day")`. */
  function AddDays(d: Date, n: int): (r: Date)
    requires Valid(d)
    ensures Valid(r)
    decreases if n < 0 then -n else n
  {
    if n == 0 then d
    else if n > 0 then AddDays(NextDay(d), n - 1)
    else AddDays(PrevDay(d), n + 1)
  }

  /** The last day of a month, as a date. */
  function EndOfMonth(y: int, m: int): (r: Date)
    requires 1 <= m <= 12
    ensures Valid(r)
  {
    Date(y, m, MonthLength(y, m))
  }

  /**
   * `dayjs(d).add(n, "month")`: the month moves by `n`, carrying into the year,
   * and a day past the end of the target month becomes that month's last day.
   */
  function AddMonths(d: Date, n: int): (r: Date)
    requires Valid(d)
    ensures Valid(r)
    ensures r.year * 12 + r.month == d.year * 12 + d.month + n
    ensures r.day == if d.day <= MonthLength(r.year, r.month) then d.day else MonthLength(r.year, r.month)
  {
    var total := d.year * 12 + (d.month - 1) + n;
    var y := total / 12;
    var m := total % 12 + 1;
    var last := MonthLength(y, m);
    Date(y, m, if d.day <= last then d.day else last)
  }

  /** `dayjs(d).year(y)`: the year is replaced and 29 February becomes 28 February outside leap years. */
  function SetYear(d: Date, y: int): (r: Date)
    requires Valid(d)
    ensures Valid(r) && r.year == y && r.month == d.month
    ensures r.day == d.day || (d.month == 2 && d.day == 29 && !IsLeapYear(y) && r.day == 28)
  {
    var last := MonthLength(y, d.month);
    Date(y, d.month, if d.day <= last then d.day else last)
  }

  // ---------------------------------------------------------------------------
  // Properties
  // ---------------------------------------------------------------------------

  lemma YearLength(y: int)
    ensures DaysBeforeYear(y + 1) - DaysBeforeYear(y) == if IsLeapYear(y) then 366 else 365
  {
    StepOver4(y);
    StepOver100(y);
    StepOver400(y);
  }

  lemma StepOver4(y: int)
    ensures y / 4 - (y - 1) / 4 == if y % 4 == 0 then 1 else 0
  {
  }

  lemma StepOver100(y: int)
    ensures y / 100 - (y - 1) / 100 == if y % 100 == 0 then 1 else 0
  {
  }

  lemma StepOver400(y: int)
    ensures y / 400 - (y - 1) / 400 == if y % 400 == 0 then 1 else 0
  {
  }

  lemma {:induction false} DaysBeforeDecember(y: int)
    ensures DaysBeforeMonth(y, 13) == if IsLeapYear(y) then 366 else 365
  {
    assert DaysBeforeMonth(y, 13) == DaysBeforeMonth(y, 2) + MonthLength(y, 2) + 306;
  }

  /** Stepping one day forward adds one to the day number, across month and year ends. */
  lemma NextDayNumber(d: Date)
    requires Valid(d)
    ensures DayNumber(NextDay(d)) == DayNumber(d) + 1
  {
    if d.day == MonthLength(d.year, d.month) && d.month == 12 {
      YearLength(d.year);
      DaysBeforeDecember(d.year);
    }
  }

  lemma PrevDayIsInverse(d: Date)
    requires Valid(d)
    ensures NextDay(PrevDay(d)) == d && PrevDay(NextDay(d)) == d
  {
  }

  /** `AddDays` moves the day number by exactly `n`. */
  lemma {:induction false} AddDaysNumber(d: Date, n: int)
    requires Valid(d)
    ensures DayNumber(AddDays(d, n)) == DayNumber(d) + n
    decreases if n < 0 then -n else n
  {
    if n > 0 {
      NextDayNumber(d);
      AddDaysNumber(NextDay(d), n - 1);
    } else if n < 0 {
      PrevDayIsInverse(d);
      NextDayNumber(PrevDay(d));
      AddDaysNumber(PrevDay(d), n + 1);
    }
  }

  /** The last step of `AddDays`: `n` days forward is one day after `n - 1` days forward, and likewise backward. */
  lemma {:induction false} AddDaysLast(d: Date, n: int)
    requires Valid(d) && n != 0
    ensures n > 0 ==> AddDays(d, n) == NextDay(AddDays(d, n - 1))
    ensures n < 0 ==> AddDays(d, n) == PrevDay(AddDays(d, n + 1))
    decreases if n < 0 then -n else n
  {
    if n > 1 {
      AddDaysLast(NextDay(d), n - 1);
    } else if n < -1 {
      AddDaysLast(PrevDay(d), n + 1);
    }
  }

  /** Going `n` days one way and `n` days back returns to the same date. */
  lemma {:induction false} AddDaysInverse(d: Date, n: int)
    requires Valid(d)
    ensures AddDays(AddDays(d, n), -n) == d
    decreases if n < 0 then -n else n
  {
    if n > 0 {
      AddDaysLast(d, n);
      var e := AddDays(d, n - 1);
      PrevDayIsInverse(e);
      AddDaysInverse(d, n - 1);
    } else if n < 0 {
      AddDaysLast(d, n);
      var e := AddDays(d, n + 1);
      PrevDayIsInverse(e);
      AddDaysInverse(d, n + 1);
    }
  }

  /** The next day is the next weekday. */
  lemma NextDayWeekday(d: Date)
    requires Valid(d)
    ensures Weekday(NextDay(d)) == (Weekday(d) + 1) % 7
  {
    NextDayNumber(d);
    var k := DayNumber(d) + 1;
    assert Weekday(NextDay(d)) == (k + 1) % 7;
    assert (k + 1) % 7 == (k % 7 + 1) % 7;
  }

  /** Going `n` days forward (or back) moves the weekday by `n`, modulo 7; a week later is the same weekday. */
  lemma AddDaysWeekday(d: Date, n: int)
    requires Valid(d)
    ensures Weekday(AddDays(d, n)) == (Weekday(d) + n) % 7
  {
    AddDaysNumber(d, n);
    var a := DayNumber(d) + 1;
    ModShift(a, n);
  }

  lemma ModShift(a: int, n: int)
    ensures (a + n) % 7 == (a % 7 + n) % 7
  {
    var q := a / 7;
    assert a == 7 * q + a % 7;
    assert a + n == 7 * q + (a % 7 + n);
  }

  /** The day numbering is anchored so that 1 January 2024 is a Monday. */
  lemma NewYear2024IsMonday()
    ensures Weekday(Date(2024, 1, 1)) == 1
  {
  }

  /** Adding months never changes a day that exists in the target month. */
  lemma AddMonthsKeepsDay(d: Date, n: int)
    requires Valid(d) && d.day <= 28
    ensures AddMonths(d, n).day == d.day
  {
  }

  /** Adding and then removing one month is the identity on days that exist in both months. */
  lemma AddMonthsBackAndForth(d: Date)
    requires Valid(d) && d.day <= 28
    ensures AddMonths(AddMonths(d, 1), -1) == d && AddMonths(AddMonths(d, -1), 1) == d
  {
  }
}
