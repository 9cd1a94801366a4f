/**
 * `DatePicker`: a `DateInput` with a pop-up calendar. The pop-up shows the
 * month of a displayed date as a grid of weeks, or a grid of years, and its
 * key and click handlers move the focused date or year, page through months
 * and pick a date. Dates are calendar values; the pattern strings the
 * component formats and parses them with are abstracted away.
 */
module DatePicker {
  import opened Text
  import opened Gregorian
  import TimePicker

  /** One cell of the month grid. */
  datatype CalendarDay = CalendarDay(day: int, date: Date, isOtherMonth: bool)

  // ---------------------------------------------------------------------------
  // The year grid
  // ---------------------------------------------------------------------------

  /** 50 rows of 4 years: row `i`, column `j` holds 1900 + 4i + j. */
  function YearGrid(): (g: seq<seq<int>>)
    ensures |g| == 50 && forall i :: 0 <= i < 50 ==> |g[i]| == 4
  {
    seq(50, i => seq(4, j => 1900 + i * 4 + j))
  }

  /** Every year from 1900 to 2099 is in the grid, at row (y - 1900) / 4 and column (y - 1900) % 4. */
  lemma YearGridCovers(y: int)
    requires 1900 <= y <= 2099
    ensures var i, j := (y - 1900) / 4, (y - 1900) % 4;
            0 <= i < 50 && 0 <= j < 4 && YearGrid()[i][j] == y
  {
  }

  /** The grid holds only years from 1900 to 2099, and each of them once. */
  lemma YearGridDistinct(i: int, j: int, i2: int, j2: int)
    requires 0 <= i < 50 && 0 <= j < 4 && 0 <= i2 < 50 && 0 <= j2 < 4
    ensures 1900 <= YearGrid()[i][j] <= 2099
    ensures YearGrid()[i][j] == YearGrid()[i2][j2] ==> i == i2 && j == j2
  {
  }

  // ---------------------------------------------------------------------------
  // The month grid
  // ---------------------------------------------------------------------------

  function FirstOfMonth(d: Date): Date { Date(d.year, d.month, 1) }

  /** The number of leading cells: the weekday of the 1st (0 = Sunday). */
  function Lead(d: Date): (n: nat)
    requires Valid(d)
    ensures n < 7
  {
    Weekday(FirstOfMonth(d))
  }

  /** The leading cells: the last `Lead(d)` days of the previous month. */
  function LeadingDays(d: Date): (cells: seq<CalendarDay>)
    requires Valid(d)
    ensures |cells| == Lead(d)
  {
    var p := AddMonths(d, -1);
    var pl := MonthLength(p.year, p.month);
    var lead := Lead(d);
    seq(lead, k => CalendarDay(pl - (lead - 1 - k), Date(p.year, p.month, pl - (lead - 1 - k)), true))
  }

  /** The days of the displayed month. */
  function MonthDays(d: Date): (cells: seq<CalendarDay>)
    requires Valid(d)
    ensures |cells| == MonthLength(d.year, d.month)
  {
    seq(MonthLength(d.year, d.month), k => CalendarDay(k + 1, Date(d.year, d.month, k + 1), false))
  }

  /** `(7 - (len % 7)) % 7`: the cells that complete the last row. */
  function TrailingCount(len: nat): (r: nat)
    ensures r < 7 && (len + r) % 7 == 0
  {
    (7 - len % 7) % 7
  }

  /** The trailing cells: the first `r` days of the next month. */
  function TrailingDays(d: Date, r: nat): (cells: seq<CalendarDay>)
    requires Valid(d)
    ensures |cells| == r
  {
    var nx := AddMonths(d, 1);
    seq(r, k => CalendarDay(k + 1, Date(nx.year, nx.month, k + 1), true))
  }

  /** The cells `updateDays` lays out for the month of `d`, before they are cut into weeks. */
  function MonthGrid(d: Date): seq<CalendarDay>
    requires Valid(d)
  {
    var front := LeadingDays(d) + MonthDays(d);
    front + TrailingDays(d, TrailingCount(|front|))
  }

  /** Week `w` of a cell list: `days.slice(7w, 7w + 7)`. */
  function Week(days: seq<CalendarDay>, w: nat): seq<CalendarDay>
    requires 7 * w <= |days|
  {
    days[7 * w .. Min(7 * w + 7, |days|)]
  }

  /** The list cut into chunks of 7, the last one possibly shorter. */
  function Chunks(days: seq<CalendarDay>): (weeks: seq<seq<CalendarDay>>)
    ensures |weeks| == (|days| + 6) / 7
  {
    seq((|days| + 6) / 7, w requires 0 <= w < (|days| + 6) / 7 => Week(days, w))
  }

  /** The first loops of `updateDays`: the leading, the month's and the trailing cells. */
  method BuildDays(d: Date) returns (days: seq<CalendarDay>)
    requires Valid(d)
    ensures days == MonthGrid(d)
  {
    var p := AddMonths(d, -1);
    var pl := MonthLength(p.year, p.month);
    var lead := Lead(d);
    days := [];
    var i: int := lead - 1;
    while i >= 0
      invariant -1 <= i <= lead - 1
      invariant days == LeadingDays(d)[..lead - 1 - i]
    {
      LeadingStep(d, i);
      days := days + [CalendarDay(pl - i, Date(p.year, p.month, pl - i), true)];
      i := i - 1;
    }
    assert LeadingDays(d)[..lead] == LeadingDays(d);
    var n := MonthLength(d.year, d.month);
    var j := 1;
    while j <= n
      invariant 1 <= j <= n + 1
      invariant days == LeadingDays(d) + MonthDays(d)[..j - 1]
    {
      MonthStep(d, j);
      days := days + [CalendarDay(j, Date(d.year, d.month, j), false)];
      j := j + 1;
    }
    assert MonthDays(d)[..n] == MonthDays(d);
    var front := days;
    var remaining := (7 - |days| % 7) % 7;
    var k := 1;
    while k <= remaining
      invariant 1 <= k <= remaining + 1
      invariant days == front + TrailingDays(d, remaining)[..k - 1]
    {
      var nx := AddMonths(d, 1);
      TrailingStep(d, remaining, k);
      days := days + [CalendarDay(k, Date(nx.year, nx.month, k), true)];
      k := k + 1;
    }
    assert TrailingDays(d, remaining)[..remaining] == TrailingDays(d, remaining);
  }

  lemma LeadingStep(d: Date, i: int)
    requires Valid(d) && 0 <= i < Lead(d)
    ensures var p := AddMonths(d, -1);
      var pl := MonthLength(p.year, p.month);
      LeadingDays(d)[..Lead(d) - i] == LeadingDays(d)[..Lead(d) - 1 - i] + [CalendarDay(pl - i, Date(p.year, p.month, pl - i), true)]
  {
    var cells := LeadingDays(d);
    assert cells[..Lead(d) - i] == cells[..Lead(d) - 1 - i] + [cells[Lead(d) - 1 - i]];
  }

  lemma MonthStep(d: Date, j: int)
    requires Valid(d) && 1 <= j <= MonthLength(d.year, d.month)
    ensures MonthDays(d)[..j] == MonthDays(d)[..j - 1] + [CalendarDay(j, Date(d.year, d.month, j), false)]
  {
    var cells := MonthDays(d);
    assert cells[..j] == cells[..j - 1] + [cells[j - 1]];
  }

  lemma TrailingStep(d: Date, r: nat, k: int)
    requires Valid(d) && 1 <= k <= r
    ensures var nx := AddMonths(d, 1);
      TrailingDays(d, r)[..k] == TrailingDays(d, r)[..k - 1] + [CalendarDay(k, Date(nx.year, nx.month, k), true)]
  {
    var cells := TrailingDays(d, r);
    assert cells[..k] == cells[..k - 1] + [cells[k - 1]];
  }

  /** The last loop of `updateDays`: the cells grouped into weeks. */
  method ChunkWeeks(days: seq<CalendarDay>) returns (weeks: seq<seq<CalendarDay>>)
    ensures weeks == Chunks(days)
  {
    weeks := [];
    var i := 0;
    while i < |days|
      invariant i == 7 * |weeks| && |weeks| <= (|days| + 6) / 7
      invariant forall w :: 0 <= w < |weeks| ==> weeks[w] == Week(days, w)
    {
      weeks := weeks + [days[i .. Min(i + 7, |days|)]];
      i := i + 7;
    }
  }

  /** `updateDays(date)`. */
  method UpdateDays(d: Date) returns (weeks: seq<seq<CalendarDay>>)
    requires Valid(d)
    ensures weeks == Chunks(MonthGrid(d))
  {
    var days := BuildDays(d);
    weeks := ChunkWeeks(days);
  }

  // ---------------------------------------------------------------------------
  // Properties of the grids
  // ---------------------------------------------------------------------------

  /** The grid length is a multiple of 7 between 28 and 42: four to six full weeks. */
  lemma GridShape(d: Date)
    requires Valid(d)
    ensures |MonthGrid(d)| % 7 == 0 && 28 <= |MonthGrid(d)| <= 42
    ensures 4 <= |Chunks(MonthGrid(d))| <= 6
  {
  }

  /** A list whose length is a multiple of 7 is cut into full weeks that keep the order. */
  lemma ChunksAreWeeks(days: seq<CalendarDay>, w: nat, c: nat)
    requires |days| % 7 == 0 && w < |Chunks(days)| && c < 7
    ensures |Chunks(days)[w]| == 7 && Chunks(days)[w][c] == days[7 * w + c]
    ensures |Chunks(days)| * 7 == |days|
  {
  }

  /** Consecutive months: the first of the month after `p` is the first of `d` when `p` is one month before `d`. */
  lemma MonthAfter(p: Date, d: Date)
    requires Valid(p) && Valid(d) && p.year * 12 + p.month + 1 == d.year * 12 + d.month
    ensures NextDay(EndOfMonth(p.year, p.month)) == FirstOfMonth(d)
  {
  }

  /** Every cell holds a valid date, its `day` is that date's day, and it is flagged as another month exactly when it is one. */
  lemma GridCell(d: Date, k: nat)
    requires Valid(d) && k < |MonthGrid(d)|
    ensures Valid(MonthGrid(d)[k].date) && MonthGrid(d)[k].day == MonthGrid(d)[k].date.day
    ensures MonthGrid(d)[k].isOtherMonth <==> !SameMonth(MonthGrid(d)[k].date, d)
  {
    var lead, n := Lead(d), MonthLength(d.year, d.month);
    if k < lead {
      var p := AddMonths(d, -1);
      assert MonthGrid(d)[k] == LeadingDays(d)[k];
      assert p.year * 12 + p.month != d.year * 12 + d.month;
    } else if k < lead + n {
      assert MonthGrid(d)[k] == MonthDays(d)[k - lead];
    } else {
      var nx := AddMonths(d, 1);
      assert MonthGrid(d)[k] == TrailingDays(d, TrailingCount(lead + n))[k - lead - n];
      assert nx.year * 12 + nx.month != d.year * 12 + d.month;
    }
  }

  /** Reading the grid left to right, top to bottom, walks through consecutive days. */
  lemma GridConsecutive(d: Date, k: nat)
    requires Valid(d) && k + 1 < |MonthGrid(d)|
    ensures Valid(MonthGrid(d)[k].date)
    ensures MonthGrid(d)[k + 1].date == NextDay(MonthGrid(d)[k].date)
  {
    GridCell(d, k);
    var g := MonthGrid(d);
    var lead, n := Lead(d), MonthLength(d.year, d.month);
    if k + 1 < lead {
      assert g[k] == LeadingDays(d)[k] && g[k + 1] == LeadingDays(d)[k + 1];
    } else if k + 1 == lead {
      var p := AddMonths(d, -1);
      assert g[k] == LeadingDays(d)[k] && g[k + 1] == MonthDays(d)[0];
      assert g[k].date == EndOfMonth(p.year, p.month);
      MonthAfter(p, d);
    } else if k + 1 < lead + n {
      assert g[k] == MonthDays(d)[k - lead] && g[k + 1] == MonthDays(d)[k + 1 - lead];
    } else if k + 1 == lead + n {
      var nx := AddMonths(d, 1);
      assert g[k] == MonthDays(d)[k - lead] && g[k + 1] == TrailingDays(d, TrailingCount(lead + n))[0];
      assert g[k].date == EndOfMonth(d.year, d.month);
      MonthAfter(d, nx);
    } else {
      var r := TrailingCount(lead + n);
      assert g[k] == TrailingDays(d, r)[k - lead - n] && g[k + 1] == TrailingDays(d, r)[k + 1 - lead - n];
    }
  }

  lemma {:induction false} GridDayNumbers(d: Date, k: nat)
    requires Valid(d) && k < |MonthGrid(d)|
    ensures 1 <= MonthGrid(d)[0].date.month <= 12 && 1 <= MonthGrid(d)[k].date.month <= 12
    ensures DayNumber(MonthGrid(d)[k].date) == DayNumber(MonthGrid(d)[0].date) + k
    decreases k
  {
    GridCell(d, 0);
    GridCell(d, k);
    if k > 0 {
      GridDayNumbers(d, k - 1);
      GridConsecutive(d, k - 1);
      NextDayNumber(MonthGrid(d)[k - 1].date);
    }
  }

  /** The 1st of the displayed month sits at index `Lead(d)`. */
  lemma GridFirst(d: Date)
    requires Valid(d)
    ensures Lead(d) < |MonthGrid(d)| && MonthGrid(d)[Lead(d)].date == FirstOfMonth(d)
  {
    assert MonthGrid(d)[Lead(d)] == MonthDays(d)[0];
  }

  /** Column `k % 7` of the grid is the weekday of its date (0 = Sunday), as the header row says. */
  lemma GridWeekdays(d: Date, k: nat)
    requires Valid(d) && k < |MonthGrid(d)|
    ensures 1 <= MonthGrid(d)[k].date.month <= 12
    ensures Weekday(MonthGrid(d)[k].date) == k % 7
  {
    var g := MonthGrid(d);
    var lead := Lead(d);
    GridFirst(d);
    GridDayNumbers(d, lead);
    GridDayNumbers(d, k);
    SameColumn(g[lead].date, g[k].date, lead, k);
  }

  /** Two dates `k - lead` days apart, the first on weekday `lead`, put the second on weekday `k % 7`. */
  lemma SameColumn(first: Date, x: Date, lead: int, k: int)
    requires 1 <= first.month <= 12 && 1 <= x.month <= 12
    requires 0 <= lead < 7 && Weekday(first) == lead
    requires DayNumber(x) - DayNumber(first) == k - lead
    ensures Weekday(x) == k % 7
  {
    ColumnShift(DayNumber(x) - k + 1, lead, k);
  }

  /** If column `lead` has weekday `lead`, then every column `k` has weekday `k`. */
  lemma ColumnShift(base: int, lead: int, k: int)
    requires 0 <= lead < 7 && (base + lead) % 7 == lead
    ensures (base + k) % 7 == k % 7
  {
    ModShift(base, lead);
    var b := base % 7;
    assert (b + lead) % 7 == lead;
    assert b == 0 by {
      assert 0 <= b < 7;
      if b + lead < 7 { assert (b + lead) % 7 == b + lead; }
    }
    ModShift(base, k);
  }

  /** Every date of the displayed month is in the grid, at index `Lead(d) + day - 1`. */
  lemma GridHasMonth(d: Date, x: Date)
    requires Valid(d) && Valid(x) && SameMonth(x, d)
    ensures Lead(d) + x.day - 1 < |MonthGrid(d)| && MonthGrid(d)[Lead(d) + x.day - 1].date == x
    ensures !MonthGrid(d)[Lead(d) + x.day - 1].isOtherMonth
  {
    assert MonthGrid(d)[Lead(d) + x.day - 1] == MonthDays(d)[x.day - 1];
  }

  // ---------------------------------------------------------------------------
  // Navigation
  // ---------------------------------------------------------------------------

  /** What the `DateInput` holds: nothing, a string that formats back to the date it parses to, or another string (`None` when dayjs cannot read it). */
  datatype Selection = Unset | Exact(date: Date) | Loose(parsed: Option<Date>)

  predicate SelectionValid(s: Selection) {
    match s
    case Unset => true
    case Exact(d) => Valid(d)
    case Loose(p) => p.None? || Valid(p.value)
  }

  /** `dayjs(selectedDate, pattern)`: `dayjs(undefined)` is now. */
  function SelectedDayjs(s: Selection, today: Date): Option<Date> {
    match s
    case Unset => Some(today)
    case Exact(d) => Some(d)
    case Loose(p) => p
  }

  /** A date-cell arrow key: move by `delta` days, but only within the displayed month. */
  function DayKeyTarget(focused: Date, displayed: Date, delta: int): (r: Date)
    requires Valid(focused)
    ensures Valid(r)
    ensures r == focused || (r == AddDays(focused, delta) && SameMonth(r, displayed))
  {
    var t := AddDays(focused, delta);
    if SameMonth(t, displayed) then t else focused
  }

  /** A year-cell arrow key: move by `delta` years, clamped at 1900 going back and at 2099 going forward. */
  function YearStep(base: int, delta: int): int {
    var y := base + delta;
    if delta < 0 then (if y < 1900 then 1900 else y) else (if y > 2099 then 2099 else y)
  }

  /** The focused-date key moves that succeed can be undone by the opposite key. */
  lemma DayKeyUndo(focused: Date, displayed: Date, delta: int)
    requires Valid(focused) && SameMonth(focused, displayed)
    requires delta == 1 || delta == -1 || delta == 7 || delta == -7
    ensures SameMonth(DayKeyTarget(focused, displayed, delta), displayed)
    ensures DayKeyTarget(focused, displayed, delta) != focused ==>
              DayKeyTarget(DayKeyTarget(focused, displayed, delta), displayed, -delta) == focused
  {
    AddDaysInverse(focused, delta);
  }

  /** Year moves from a year in the grid stay in the grid, and an unclamped move can be undone. */
  lemma YearStepInGrid(base: int, delta: int)
    requires 1900 <= base <= 2099 && (delta == 1 || delta == -1 || delta == 4 || delta == -4)
    ensures 1900 <= YearStep(base, delta) <= 2099
    ensures 1900 <= base + delta <= 2099 ==> YearStep(YearStep(base, delta), -delta) == base
  {
  }

  /** Paging forward then back shows the same month and year again, whatever the day. */
  lemma MonthPagingRoundTrip(d: Date)
    requires Valid(d)
    ensures SameMonth(AddMonths(AddMonths(d, 1), -1), d)
    ensures SameMonth(AddMonths(AddMonths(d, -1), 1), d)
  {
    MonthIndexInjective(AddMonths(AddMonths(d, 1), -1), d);
    MonthIndexInjective(AddMonths(AddMonths(d, -1), 1), d);
  }

  lemma MonthIndexInjective(a: Date, b: Date)
    requires 1 <= a.month <= 12 && 1 <= b.month <= 12
    requires a.year * 12 + a.month == b.year * 12 + b.month
    ensures SameMonth(a, b)
  {
  }

  /** An element the keyboard handler can see as active. */
  datatype Element = CalendarCell | YearCell | OtherElement(id: nat)

  class DatePickerState {
    var focusedYear: Option<int>
    var focusedDate: Option<Date>
    var selected: Selection
    var showYears: bool
    var showCalendar: bool
    /** The displayed date (`currentDate`), whose month the grid shows. */
    var current: Date
    var weeks: seq<seq<CalendarDay>>
    var hiding: bool
    var pendingHides: nat

    predicate Valid()
      reads this
    {
      Gregorian.Valid(current) && weeks == Chunks(MonthGrid(current)) &&
      SelectionValid(selected) &&
      (focusedDate.Some? ==> Gregorian.Valid(focusedDate.value)) &&
      (hiding ==> pendingHides > 0)
    }

    /** Mounting: the displayed date is the value when dayjs can read it, else today; the grid effect has run. */
    constructor (value: Selection, today: Date)
      requires Gregorian.Valid(today) && SelectionValid(value)
      ensures Valid()
      ensures selected == value && focusedDate.None? && focusedYear.None?
      ensures current == (if SelectedDayjs(value, today).Some? then SelectedDayjs(value, today).value else today)
      ensures !showYears && !showCalendar && !hiding && pendingHides == 0
    {
      var start := if SelectedDayjs(value, today).Some? then SelectedDayjs(value, today).value else today;
      focusedYear, focusedDate, selected := None, None, value;
      showYears, showCalendar, hiding, pendingHides := false, false, false, 0;
      current := start;
      var grid := UpdateDays(start);
      weeks := grid;
    }

    /** `hideCalendar`: only a shown calendar starts hiding, with a timer to close it. */
    method Hide()
      requires Valid()
      modifies this
      ensures Valid()
      ensures old(showCalendar) ==> hiding && pendingHides == old(pendingHides) + 1
      ensures !old(showCalendar) ==> hiding == old(hiding) && pendingHides == old(pendingHides)
      ensures showCalendar == old(showCalendar) && showYears == old(showYears) && current == old(current)
      ensures selected == old(selected) && focusedDate == old(focusedDate) && focusedYear == old(focusedYear)
    {
      if showCalendar {
        hiding := true;
        pendingHides := pendingHides + 1;
      }
    }

    /** One scheduled hide timer fires: the calendar is closed. */
    method HideTimerFires()
      requires Valid() && pendingHides > 0
      modifies this
      ensures Valid()
      ensures !showCalendar && !hiding && pendingHides == old(pendingHides) - 1
      ensures showYears == old(showYears) && current == old(current)
      ensures selected == old(selected) && focusedDate == old(focusedDate) && focusedYear == old(focusedYear)
    {
      showCalendar, hiding := false, false;
      pendingHides := pendingHides - 1;
    }

    /** A mouse-down outside the open calendar hides it and leaves the year view. */
    method ClickOutside()
      requires Valid()
      modifies this
      ensures Valid()
      ensures !showYears
      ensures old(showCalendar) ==> hiding && pendingHides == old(pendingHides) + 1
      ensures !old(showCalendar) ==> hiding == old(hiding) && pendingHides == old(pendingHides)
      ensures showCalendar == old(showCalendar) && current == old(current)
      ensures selected == old(selected) && focusedDate == old(focusedDate) && focusedYear == old(focusedYear)
    {
      Hide();
      showYears := false;
    }

    /**
     * `toggleShowCalendar`: opening with an exact selection displays and
     * focuses it; otherwise the displayed date is focused. Closing leaves the
     * year view.
     */
    method Toggle()
      requires Valid()
      modifies this
      ensures Valid()
      ensures showCalendar == !old(showCalendar)
      ensures showCalendar && old(selected).Exact? ==>
                current == old(selected).date && focusedDate == Some(current) && focusedYear == Some(current.year) &&
                showYears == old(showYears)
      ensures showCalendar && !old(selected).Exact? ==>
                current == old(current) && focusedDate == Some(current) && focusedYear == Some(current.year) &&
                showYears == old(showYears)
      ensures !showCalendar ==>
                !showYears && current == old(current) && focusedDate == old(focusedDate) && focusedYear == old(focusedYear)
      ensures selected == old(selected) && hiding == old(hiding) && pendingHides == old(pendingHides)
    {
      showCalendar := !showCalendar;
      if showCalendar {
        if selected.Exact? {
          focusedDate, focusedYear := Some(selected.date), Some(selected.date.year);
          current := selected.date;
          weeks := UpdateDays(current);
        } else {
          focusedDate, focusedYear := Some(current), Some(current.year);
        }
      } else {
        showYears := false;
      }
    }

    /** The chevron next to the month label. */
    method ToggleYears()
      modifies this
      ensures showYears == !old(showYears)
      ensures showCalendar == old(showCalendar) && current == old(current) && weeks == old(weeks)
      ensures selected == old(selected) && focusedDate == old(focusedDate) && focusedYear == old(focusedYear)
      ensures hiding == old(hiding) && pendingHides == old(pendingHides)
    {
      showYears := !showYears;
    }

    /**
     * `prevMonth` (`delta` = -1) and `nextMonth` (`delta` = 1): the displayed
     * date moves one month, and the focus goes to the selection when it lies
     * in the new month, else to the new displayed date.
     */
    method PageMonth(delta: int, today: Date)
      requires Valid() && Gregorian.Valid(today) && (delta == 1 || delta == -1)
      modifies this
      ensures Valid()
      ensures current == AddMonths(old(current), delta)
      ensures var s := SelectedDayjs(selected, today);
              focusedDate == if s.Some? && SameMonth(current, s.value) then s else Some(current)
      ensures SameMonth(focusedDate.value, current)
      ensures selected == old(selected) && focusedYear == old(focusedYear) && showYears == old(showYears)
      ensures showCalendar == old(showCalendar) && hiding == old(hiding) && pendingHides == old(pendingHides)
    {
      var newDate := AddMonths(current, delta);
      current := newDate;
      weeks := UpdateDays(newDate);
      var s := SelectedDayjs(selected, today);
      if s.Some? && SameMonth(newDate, s.value) {
        focusedDate := s;
      } else {
        focusedDate := Some(newDate);
      }
    }

    /** `handleSelectYear`: the displayed date takes the year and the day grid comes back. */
    method SelectYear(y: int)
      requires Valid()
      modifies this
      ensures Valid()
      ensures current == SetYear(old(current), y) && current.year == y && current.month == old(current).month
      ensures !showYears
      ensures selected == old(selected) && focusedDate == old(focusedDate) && focusedYear == old(focusedYear)
      ensures showCalendar == old(showCalendar) && hiding == old(hiding) && pendingHides == old(pendingHides)
    {
      current := SetYear(current, y);
      weeks := UpdateDays(current);
      showYears := false;
    }

    /** `handleSelectDate`: a date cell picked with the mouse or the keyboard becomes the selection, and the calendar hides. */
    method SelectDate(date: Date)
      requires Valid() && Gregorian.Valid(date)
      modifies this
      ensures Valid()
      ensures selected == Exact(date)
      ensures old(showCalendar) ==> hiding && pendingHides == old(pendingHides) + 1
      ensures !old(showCalendar) ==> hiding == old(hiding) && pendingHides == old(pendingHides)
      ensures showCalendar == old(showCalendar) && showYears == old(showYears) && current == old(current)
      ensures focusedDate == old(focusedDate) && focusedYear == old(focusedYear)
    {
      selected := Exact(date);
      Hide();
    }

    /** The effect without dependencies: after every render, a defined `selectedDate` is handed to `onChange`. */
    method ChangeEffect() returns (notice: Option<Selection>)
      ensures notice.None? <==> selected.Unset?
      ensures notice.Some? ==> notice.value == selected
    {
      notice := if selected.Unset? then None else Some(selected);
    }

    /** The `DateInput`'s `onChange`. */
    method InputChange(value: Selection)
      requires Valid() && SelectionValid(value)
      modifies this
      ensures Valid()
      ensures selected == value
      ensures showCalendar == old(showCalendar) && showYears == old(showYears) && current == old(current)
      ensures focusedDate == old(focusedDate) && focusedYear == old(focusedYear)
      ensures hiding == old(hiding) && pendingHides == old(pendingHides)
    {
      selected := value;
    }

    /**
     * `handleCalendarKeyDown` with `active` the focused element and
     * `focusables` the focusable elements of the pop-up in order; `moveTo` is
     * the element the Tab trap focuses. Nothing happens before a date has
     * been focused or while the pop-up is not in the document.
     */
    method KeyDown(key: string, shift: bool, active: Element, focusables: seq<Element>) returns (prevented: bool, moveTo: Option<Element>)
      requires Valid()
      modifies this
      ensures Valid()
      ensures old(focusedDate).None? || !(old(showCalendar) || old(hiding)) ==> unchanged(this) && !prevented && moveTo.None?
      ensures old(focusedDate).Some? && (old(showCalendar) || old(hiding)) ==>
        var f := old(focusedDate).value;
        var base := if old(focusedYear).Some? then old(focusedYear).value else current.year;
        (key == "Tab" ==> moveTo == TimePicker.TabTrap(focusables, active, shift) && prevented == moveTo.Some? && unchanged(this)) &&
        (key in {"ArrowLeft", "ArrowRight", "ArrowUp", "ArrowDown"} ==>
           var delta := if key == "ArrowLeft" then -1 else if key == "ArrowRight" then 1 else if key == "ArrowUp" then -7 else 7;
           var yearDelta := if key == "ArrowLeft" then -1 else if key == "ArrowRight" then 1 else if key == "ArrowUp" then -4 else 4;
           moveTo.None? && selected == old(selected) &&
           (active.CalendarCell? ==> prevented && focusedDate == Some(DayKeyTarget(f, current, delta)) && focusedYear == old(focusedYear)) &&
           (active.YearCell? ==> !prevented && focusedYear == Some(YearStep(base, yearDelta)) && focusedDate == old(focusedDate)) &&
           (active.OtherElement? ==> !prevented && focusedDate == old(focusedDate) && focusedYear == old(focusedYear))) &&
        ((key == "Enter" || key == " ") ==>
           moveTo.None? && prevented == active.CalendarCell? &&
           (active.CalendarCell? ==>
              selected == Exact(f) && TimePicker.HideStep(old(showCalendar), old(hiding), old(pendingHides), hiding, pendingHides)) &&
           (!active.CalendarCell? ==> selected == old(selected) && hiding == old(hiding) && pendingHides == old(pendingHides))) &&
        (key == "Escape" ==>
           !prevented && moveTo.None? && selected == old(selected) &&
           TimePicker.HideStep(old(showCalendar), old(hiding), old(pendingHides), hiding, pendingHides)) &&
        (key !in {"Tab", "ArrowLeft", "ArrowRight", "ArrowUp", "ArrowDown", "Enter", " ", "Escape"} ==>
           !prevented && moveTo.None? && unchanged(this))
      ensures key !in {"Enter", " ", "Escape"} ==> hiding == old(hiding) && pendingHides == old(pendingHides)
      ensures key !in {"ArrowLeft", "ArrowRight", "ArrowUp", "ArrowDown"} ==>
                focusedDate == old(focusedDate) && focusedYear == old(focusedYear)
      ensures key != "Enter" && key != " " ==> selected == old(selected)
      ensures current == old(current) && showCalendar == old(showCalendar) && showYears == old(showYears)
    {
      prevented, moveTo := false, None;
      if focusedDate.None? || !(showCalendar || hiding) {
        return;
      }
      var f := focusedDate.value;
      var base := if focusedYear.Some? then focusedYear.value else current.year;
      match key {
        case "Tab" =>
          moveTo := TimePicker.TabTrap(focusables, active, shift);
          prevented := moveTo.Some?;
        case "ArrowLeft" =>
          prevented := ArrowKey(active, f, -1, base, -1);
        case "ArrowRight" =>
          prevented := ArrowKey(active, f, 1, base, 1);
        case "ArrowUp" =>
          prevented := ArrowKey(active, f, -7, base, -4);
        case "ArrowDown" =>
          prevented := ArrowKey(active, f, 7, base, 4);
        case "Enter" =>
          if active.CalendarCell? {
            prevented := true;
            SelectDate(f);
          }
        case " " =>
          if active.CalendarCell? {
            prevented := true;
            SelectDate(f);
          }
        case "Escape" =>
          Hide();
        case _ =>
      }
    }

    /** One arrow key: a date cell moves the focused date within the month, a year cell moves the focused year. */
    method ArrowKey(active: Element, f: Date, delta: int, base: int, yearDelta: int) returns (prevented: bool)
      requires Valid() && Gregorian.Valid(f)
      modifies this
      ensures Valid()
      ensures active.CalendarCell? ==> prevented && focusedDate == Some(DayKeyTarget(f, current, delta)) && focusedYear == old(focusedYear)
      ensures active.YearCell? ==> !prevented && focusedYear == Some(YearStep(base, yearDelta)) && focusedDate == old(focusedDate)
      ensures active.OtherElement? ==> !prevented && focusedDate == old(focusedDate) && focusedYear == old(focusedYear)
      ensures current == old(current) && showCalendar == old(showCalendar) && showYears == old(showYears) && selected == old(selected)
      ensures hiding == old(hiding) && pendingHides == old(pendingHides)
    {
      prevented := false;
      if active.CalendarCell? {
        prevented := true;
        focusedDate := Some(DayKeyTarget(f, current, delta));
      } else if active.YearCell? {
        focusedYear := Some(YearStep(base, yearDelta));
      }
    }
  }
}
