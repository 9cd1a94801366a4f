/**
 * `TimePicker`: a `TimeInput` with a drop-down of hour and minute cells.
 * The drop-down is a state machine over `selectedTime`, the chosen `hour` and
 * `minute` cell texts, `showTimePicker`, `isHiding`, the pending hide timers
 * and the focused element; the key and click handlers are its transitions.
 */
module TimePicker {
  import opened Text
  import Utils
  import TimeInput

  /** The cell texts of a column of `n` entries: "00", "01", … */
  function Cells(n: nat): (cells: seq<string>)
    ensures |cells| == n
  {
    seq(n, i => Utils.ZeroPad(i, 2))
  }

  const Hours: seq<string> := Cells(24)
  const Minutes: seq<string> := Cells(60)

  /** Whether a column of `n` has a cell showing `t`: two digits whose value is below `n`. */
  predicate IsCell(t: string, n: nat) {
    |t| == 2 && AllDigits(t) && DigitsValue(t) < n
  }

  /** `${hour ?? "HH"}:${minute ?? "mm"}`. */
  function ComposeTime(hour: Option<string>, minute: Option<string>): string {
    (if hour.None? then "HH" else hour.value) + ":" + (if minute.None? then "mm" else minute.value)
  }

  /** `const [h, m] = s.split(":")`: the first part, and the second one if there is one. */
  function SplitTime(s: string): (hm: (Option<string>, Option<string>))
    ensures hm.0.Some?
  {
    var parts := Split(s, ':');
    (Some(parts[0]), if |parts| > 1 then Some(parts[1]) else None)
  }

  /** What Cancel restores from `selectedTime`: its two halves when it is a valid time, else nothing. */
  function Restore(selected: string): (Option<string>, Option<string>) {
    if TimeInput.IsValidTime(selected) then SplitTime(selected) else (None, None)
  }

  /**
   * The cell an arrow key moves to from the cell showing `text` in a column
   * of `n`: `zeroPad((parseInt(text) - 1 + n) % n, 2)` upwards and
   * `zeroPad((parseInt(text) + 1) % n, 2)` downwards; `NaN` prints as "NaN".
   */
  function ArrowTarget(text: string, up: bool, n: nat): string
    requires n > 0
  {
    ArrowOf(ParseIntNoRadix(text), up, n)
  }

  /** The arrow's target cell text for the number a cell parses to (`None` for `NaN`). */
  function ArrowOf(p: Option<int>, up: bool, n: nat): string
    requires n > 0
  {
    match p
    case None => "NaN"
    case Some(v) => Utils.ZeroPad(StepIndex(v, up, n), 2)
  }

  /** `(v - 1 + n) % n` upwards and `(v + 1) % n` downwards, with JavaScript's `%`. */
  function StepIndex(v: int, up: bool, n: nat): int
    requires n > 0
  {
    JsRem(if up then v - 1 + n else v + 1, n)
  }

  /** The element that has the focus: a cell of either column, or any other element. */
  datatype Focus = HourCell(text: string) | MinuteCell(text: string) | Other(id: nat)

  /**
   * The Tab trap: Shift+Tab on the first focusable element moves to the last,
   * Tab on the last moves to the first (both with the default prevented);
   * anything else is left to the browser (`None`).
   */
  function TabTrap<E(==)>(focusables: seq<E>, active: E, shift: bool): (r: Option<E>)
    ensures r.Some? ==> r.value in focusables
    ensures r.Some? <==> |focusables| > 0 && ((shift && active == focusables[0]) || (!shift && active == focusables[|focusables| - 1]))
  {
    if |focusables| == 0 then None
    else if shift && active == focusables[0] then Some(focusables[|focusables| - 1])
    else if !shift && active == focusables[|focusables| - 1] then Some(focusables[0])
    else None
  }

  /**
   * What `hideTimePicker` does to the hiding flag and the timers: a shown
   * picker starts hiding with one more timer scheduled; otherwise nothing changes.
   */
  predicate HideStep(wasShown: bool, wasHiding: bool, wasPending: nat, hiding: bool, pending: nat) {
    if wasShown then hiding && pending == wasPending + 1 else hiding == wasHiding && pending == wasPending
  }

  /** `handleSelectTime` commits: the composed time is valid and differs from `selectedTime`. */
  predicate Commits(hour: Option<string>, minute: Option<string>, selectedTime: string) {
    TimeInput.IsValidTime(ComposeTime(hour, minute)) && selectedTime != ComposeTime(hour, minute)
  }

  /** The OK button is disabled while `!hour || !minute`: a cell unset or empty. */
  predicate OkDisabled(hour: Option<string>, minute: Option<string>) {
    hour.None? || hour.value == "" || minute.None? || minute.value == ""
  }

  class TimePickerState {
    var selectedTime: string
    var hour: Option<string>
    var minute: Option<string>
    var show: bool
    var hiding: bool
    /** Hide timers scheduled and not yet fired. */
    var pendingHides: nat
    var focus: Focus

    /** Every hiding picker has a timer on the way that will close it. */
    predicate Valid()
      reads this
    {
      hiding ==> pendingHides > 0
    }

    /** The drop-down is in the document while it is shown or hiding. */
    predicate Rendered()
      reads this
    {
      show || hiding
    }

    /** Mounting with `value`: the one-shot effect copies a valid value into `selectedTime` and the cells. */
    constructor (value: Option<string>)
      ensures Valid() && !show && !hiding && pendingHides == 0 && focus == Other(0)
      ensures value.Some? && TimeInput.IsValidTime(value.value) ==>
                selectedTime == value.value && (hour, minute) == SplitTime(value.value)
      ensures !(value.Some? && TimeInput.IsValidTime(value.value)) ==>
                selectedTime == "HH:mm" && hour.None? && minute.None?
    {
      selectedTime, hour, minute := "HH:mm", None, None;
      show, hiding, pendingHides, focus := false, false, 0, Other(0);
      if value.Some? && value.value != "" && TimeInput.IsValidTime(value.value) {
        selectedTime := value.value;
        var hm := SplitTime(value.value);
        hour, minute := hm.0, hm.1;
      }
    }

    /** The clock button. */
    method Toggle()
      requires Valid()
      modifies this
      ensures Valid()
      ensures show == !old(show)
      ensures hiding == old(hiding) && pendingHides == old(pendingHides)
      ensures selectedTime == old(selectedTime) && hour == old(hour) && minute == old(minute) && focus == old(focus)
    {
      show := !show;
    }

    /** `hideTimePicker`: only a shown picker starts hiding, and a timer is scheduled to close it. */
    method Hide()
      requires Valid()
      modifies this
      ensures Valid()
      ensures old(show) ==> hiding && pendingHides == old(pendingHides) + 1
      ensures !old(show) ==> hiding == old(hiding) && pendingHides == old(pendingHides)
      ensures show == old(show)
      ensures selectedTime == old(selectedTime) && hour == old(hour) && minute == old(minute) && focus == old(focus)
    {
      if show {
        hiding := true;
        pendingHides := pendingHides + 1;
      }
    }

    /** One scheduled hide timer fires: the picker is closed. */
    method HideTimerFires()
      requires Valid() && pendingHides > 0
      modifies this
      ensures Valid()
      ensures !show && !hiding && !Rendered() && pendingHides == old(pendingHides) - 1
      ensures selectedTime == old(selectedTime) && hour == old(hour) && minute == old(minute) && focus == old(focus)
    {
      show, hiding := false, false;
      pendingHides := pendingHides - 1;
    }

    /**
     * `handleSelectTime`: a valid composed time different from `selectedTime`
     * is committed and the picker hides; `onChange` is given the PREVIOUS
     * `selectedTime`, as the component's own test expects.
     */
    method SelectTime() returns (notice: Option<string>)
      requires Valid()
      modifies this
      ensures Valid()
      ensures if Commits(old(hour), old(minute), old(selectedTime)) then
                selectedTime == ComposeTime(old(hour), old(minute)) && notice == Some(old(selectedTime)) &&
                HideStep(old(show), old(hiding), old(pendingHides), hiding, pendingHides)
              else
                selectedTime == old(selectedTime) && notice.None? &&
                hiding == old(hiding) && pendingHides == old(pendingHides)
      ensures show == old(show) && hour == old(hour) && minute == old(minute) && focus == old(focus)
    {
      var time := ComposeTime(hour, minute);
      if TimeInput.IsValidTime(time) && selectedTime != time {
        var previous := selectedTime;
        selectedTime := time;
        notice := Some(previous);
        Hide();
      } else {
        notice := None;
      }
    }

    /** The OK button, disabled while either cell is unset or empty; enabled, it is `handleSelectTime`. */
    method OkClick() returns (notice: Option<string>)
      requires Valid()
      modifies this
      ensures Valid()
      ensures if !OkDisabled(old(hour), old(minute)) && Commits(old(hour), old(minute), old(selectedTime)) then
                selectedTime == ComposeTime(old(hour), old(minute)) && notice == Some(old(selectedTime)) &&
                HideStep(old(show), old(hiding), old(pendingHides), hiding, pendingHides)
              else
                selectedTime == old(selectedTime) && notice.None? &&
                hiding == old(hiding) && pendingHides == old(pendingHides)
      ensures notice.Some? ==> TimeInput.IsValidTime(selectedTime) && notice.value != selectedTime
      ensures show == old(show) && hour == old(hour) && minute == old(minute) && focus == old(focus)
    {
      if OkDisabled(hour, minute) {
        notice := None;
      } else {
        notice := SelectTime();
      }
    }

    /** `handleCancelClick`: hide, and put the cells back to what `selectedTime` says. */
    method CancelClick()
      requires Valid()
      modifies this
      ensures Valid()
      ensures (hour, minute) == Restore(old(selectedTime))
      ensures old(show) ==> hiding && pendingHides == old(pendingHides) + 1
      ensures !old(show) ==> hiding == old(hiding) && pendingHides == old(pendingHides)
      ensures show == old(show) && selectedTime == old(selectedTime) && focus == old(focus)
    {
      Hide();
      var hm := Restore(selectedTime);
      hour, minute := hm.0, hm.1;
    }

    /** A click on an hour cell. */
    method ClickHour(h: string)
      modifies this
      ensures hour == Some(h)
      ensures minute == old(minute) && selectedTime == old(selectedTime)
      ensures show == old(show) && hiding == old(hiding) && pendingHides == old(pendingHides) && focus == old(focus)
    {
      hour := Some(h);
    }

    /** A click on a minute cell. */
    method ClickMinute(m: string)
      modifies this
      ensures minute == Some(m)
      ensures hour == old(hour) && selectedTime == old(selectedTime)
      ensures show == old(show) && hiding == old(hiding) && pendingHides == old(pendingHides) && focus == old(focus)
    {
      minute := Some(m);
    }

    /** The `TimeInput`'s `onChange`: the cells take the typed parts and `selectedTime` the typed string. */
    method InputChange(value: string)
      modifies this
      ensures (hour, minute) == SplitTime(value) && selectedTime == value
      ensures show == old(show) && hiding == old(hiding) && pendingHides == old(pendingHides) && focus == old(focus)
    {
      var hm := SplitTime(value);
      hour, minute := hm.0, hm.1;
      selectedTime := value;
    }

    /** `handleTimePickerKeyDown`; `focusables` are the focusable elements inside the drop-down, in order. */
    method KeyDown(key: string, shift: bool, focusables: seq<Focus>) returns (notice: Option<string>, prevented: bool)
      requires Valid()
      modifies this
      ensures Valid()
      ensures !old(Rendered()) ==> notice.None? && !prevented && unchanged(this)
      ensures old(Rendered()) && (key == "ArrowDown" || key == "ArrowUp") ==>
                var up := key == "ArrowUp";
                prevented && notice.None? &&
                (old(focus).HourCell? ==>
                   hour == Some(ArrowTarget(old(focus).text, up, 24)) && minute == old(minute) &&
                   focus == (if IsCell(hour.value, 24) then HourCell(hour.value) else old(focus))) &&
                (old(focus).MinuteCell? ==>
                   minute == Some(ArrowTarget(old(focus).text, up, 60)) && hour == old(hour) &&
                   focus == (if IsCell(minute.value, 60) then MinuteCell(minute.value) else old(focus))) &&
                (old(focus).Other? ==> hour == old(hour) && minute == old(minute) && focus == old(focus))
      ensures old(Rendered()) && (key == "Home" || key == "End") ==>
                prevented && notice.None? &&
                (old(focus).HourCell? ==>
                   var h := if key == "Home" then "00" else "23";
                   hour == Some(h) && focus == HourCell(h) && minute == old(minute)) &&
                (old(focus).MinuteCell? ==>
                   var m := if key == "Home" then "00" else "59";
                   minute == Some(m) && focus == MinuteCell(m) && hour == old(hour)) &&
                (old(focus).Other? ==> hour == old(hour) && minute == old(minute) && focus == old(focus))
      ensures old(Rendered()) && key == " " ==>
                prevented && notice.None? && focus == old(focus) &&
                (old(focus).HourCell? ==> hour == Some(old(focus).text) && minute == old(minute)) &&
                (old(focus).MinuteCell? ==> minute == Some(old(focus).text) && hour == old(hour)) &&
                (old(focus).Other? ==> hour == old(hour) && minute == old(minute))
      ensures old(Rendered()) && key == "Tab" ==>
                notice.None? && hour == old(hour) && minute == old(minute) &&
                var r := TabTrap(focusables, old(focus), shift);
                prevented == r.Some? && (r.Some? ==> focus == r.value) && (r.None? ==> focus == old(focus))
      ensures old(Rendered()) && key == "Enter" ==>
                prevented && focus == old(focus) && hour == old(hour) && minute == old(minute) &&
                if Commits(old(hour), old(minute), old(selectedTime)) then
                  selectedTime == ComposeTime(old(hour), old(minute)) && notice == Some(old(selectedTime)) &&
                  HideStep(old(show), old(hiding), old(pendingHides), hiding, pendingHides)
                else
                  selectedTime == old(selectedTime) && notice.None? &&
                  hiding == old(hiding) && pendingHides == old(pendingHides)
      ensures old(Rendered()) && key == "Escape" ==>
                !prevented && notice.None? && focus == old(focus) && hour == old(hour) && minute == old(minute) &&
                HideStep(old(show), old(hiding), old(pendingHides), hiding, pendingHides)
      ensures old(Rendered()) && key !in {"Tab", "ArrowUp", "ArrowDown", "Home", "End", "Enter", " ", "Escape"} ==>
                !prevented && notice.None? && focus == old(focus) && hour == old(hour) && minute == old(minute)
      ensures key != "Enter" && key != "Escape" ==> hiding == old(hiding) && pendingHides == old(pendingHides)
      ensures key != "Enter" ==> selectedTime == old(selectedTime)
      ensures show == old(show)
    {
      notice, prevented := None, false;
      if !Rendered() {
        return;
      }
      match key {
        case "Tab" =>
          var r := TabTrap(focusables, focus, shift);
          if r.Some? {
            prevented := true;
            focus := r.value;
          }
        case "ArrowUp" =>
          prevented := true;
          MoveFocused(true);
        case "ArrowDown" =>
          prevented := true;
          MoveFocused(false);
        case "Home" =>
          prevented := true;
          if focus.HourCell? {
            hour, focus := Some("00"), HourCell("00");
          } else if focus.MinuteCell? {
            minute, focus := Some("00"), MinuteCell("00");
          }
        case "End" =>
          prevented := true;
          if focus.HourCell? {
            hour, focus := Some("23"), HourCell("23");
          } else if focus.MinuteCell? {
            minute, focus := Some("59"), MinuteCell("59");
          }
        case "Enter" =>
          prevented := true;
          notice := SelectTime();
        case " " =>
          prevented := true;
          if focus.HourCell? {
            hour := Some(focus.text);
          } else if focus.MinuteCell? {
            minute := Some(focus.text);
          }
        case "Escape" =>
          Hide();
        case _ =>
      }
    }

    /** The arrow keys: the focused cell's column moves one step, wrapping, and the focus follows when the cell exists. */
    method MoveFocused(up: bool)
      modifies this
      ensures old(focus).HourCell? ==> hour == Some(ArrowTarget(old(focus).text, up, 24)) && minute == old(minute) &&
                                       focus == (if IsCell(hour.value, 24) then HourCell(hour.value) else old(focus))
      ensures old(focus).MinuteCell? ==> minute == Some(ArrowTarget(old(focus).text, up, 60)) && hour == old(hour) &&
                                         focus == (if IsCell(minute.value, 60) then MinuteCell(minute.value) else old(focus))
      ensures old(focus).Other? ==> hour == old(hour) && minute == old(minute) && focus == old(focus)
      ensures selectedTime == old(selectedTime) && show == old(show) && hiding == old(hiding) && pendingHides == old(pendingHides)
    {
      var f := focus;
      if f.HourCell? {
        var h, target := Moved(f, up, 24, HourCell(ArrowTarget(f.text, up, 24)));
        hour, focus := Some(h), target;
      } else if f.MinuteCell? {
        var m, target := Moved(f, up, 60, MinuteCell(ArrowTarget(f.text, up, 60)));
        minute, focus := Some(m), target;
      }
    }
  }

  /** The text an arrow key selects in a column of `n`, and where the focus goes: the new cell if it exists. */
  method Moved(f: Focus, up: bool, n: nat, newCell: Focus) returns (text: string, target: Focus)
    requires n > 0 && !f.Other?
    ensures text == ArrowTarget(f.text, up, n)
    ensures target == if IsCell(text, n) then newCell else f
  {
    text := ArrowTarget(f.text, up, n);
    target := if IsCell(text, n) then newCell else f;
  }

  // ---------------------------------------------------------------------------
  // Properties
  // ---------------------------------------------------------------------------

  /** Cell `i` of a column shows `i` in two digits, which `parseInt` reads back. */
  lemma CellValue(n: nat, i: nat)
    requires i < n <= 100
    ensures |Cells(n)[i]| == 2 && AllDigits(Cells(n)[i]) && ':' !in Cells(n)[i]
    ensures ParseIntNoRadix(Cells(n)[i]) == Some(i) && DigitsValue(Cells(n)[i]) == i
  {
    assert Utils.Pow10(2) == 100;
    Utils.ZeroPadWidth(i, 2);
    Utils.ZeroPadRoundTrip(i, 2);
    ParseIntDigits(Cells(n)[i]);
  }

  /** The cells of a column are pairwise distinct, so each value is listed once. */
  lemma CellsDistinct(n: nat, i: nat, j: nat)
    requires i < n <= 100 && j < n && i != j
    ensures Cells(n)[i] != Cells(n)[j]
  {
    CellValue(n, i);
    CellValue(n, j);
  }

  /** Every two-digit string below `n` is a cell of the column, at its own index. */
  lemma CellsComplete(n: nat, t: string)
    requires n <= 100 && IsCell(t, n)
    ensures Cells(n)[DigitsValue(t)] == t
  {
    TimeInput.TwoDigitsRoundTrip(t);
  }

  /** `IsCell` is membership in the column: the cell lookup by text finds exactly these strings. */
  lemma IsCellMembership(n: nat, t: string)
    requires n <= 100
    ensures IsCell(t, n) <==> t in Cells(n)
  {
    if IsCell(t, n) {
      CellsComplete(n, t);
    }
    if t in Cells(n) {
      var i :| 0 <= i < n && Cells(n)[i] == t;
      CellValue(n, i);
    }
  }

  /** Home's target "00" is the first cell of either column. */
  lemma HomeCell(n: nat)
    requires 0 < n <= 100
    ensures IsCell("00", n) && Cells(n)[0] == "00"
  {
    TimeInput.TwoDigitsValue("00");
    CellsComplete(n, "00");
  }

  /** End's target "23" is the last cell of the hour column. */
  lemma EndHourCell()
    ensures IsCell("23", 24) && Hours[23] == "23"
  {
    TimeInput.TwoDigitsValue("23");
    LastCell(24, "23");
  }

  /** End's target "59" is the last cell of the minute column. */
  lemma EndMinuteCell()
    ensures IsCell("59", 60) && Minutes[59] == "59"
  {
    TimeInput.TwoDigitsValue("59");
    LastCell(60, "59");
  }

  lemma LastCell(n: nat, t: string)
    requires 0 < n <= 100 && |t| == 2 && AllDigits(t) && DigitsValue(t) == n - 1
    ensures IsCell(t, n) && Cells(n)[n - 1] == t
  {
    assert IsCell(t, n);
    CellsComplete(n, t);
    assert DigitsValue(t) == n - 1;
  }

  lemma ModBelow(a: int, n: int)
    requires 0 <= a < n
    ensures a % n == a
  {
  }

  lemma ModOnce(a: int, n: int)
    requires 0 < n <= a < 2 * n
    ensures a % n == a - n
  {
    ModBelow(a - n, n);
    assert a == (a - n) + n;
  }

  /** The cell after `i` and the cell before it, wrapping at both ends. */
  function Next(i: nat, n: nat): nat { if i + 1 == n then 0 else i + 1 }
  function Prev(i: nat, n: nat): nat
    requires i < n
  {
    if i == 0 then n - 1 else i - 1
  }

  lemma ArrowOnCell(n: nat, i: nat, up: bool, j: nat)
    requires 0 < n <= 100 && i < n && j < n
    requires StepIndex(i, up, n) == j
    ensures ArrowTarget(Cells(n)[i], up, n) == Cells(n)[j]
  {
    CellValue(n, i);
    ArrowFrom(Cells(n)[i], i, up, n);
    ArrowOfIndex(i, up, n, j);
    CellText(n, j);
  }

  lemma ArrowFrom(text: string, v: int, up: bool, n: nat)
    requires n > 0 && ParseIntNoRadix(text) == Some(v)
    ensures ArrowTarget(text, up, n) == ArrowOf(Some(v), up, n)
  {
  }

  lemma ArrowOfIndex(v: int, up: bool, n: nat, j: int)
    requires n > 0 && StepIndex(v, up, n) == j
    ensures ArrowOf(Some(v), up, n) == Utils.ZeroPad(j, 2)
  {
  }

  lemma CellText(n: nat, j: nat)
    requires j < n
    ensures Cells(n)[j] == Utils.ZeroPad(j, 2)
  {
  }

  /** An arrow key on cell `i` moves to cell `i ± 1`, wrapping at both ends. */
  lemma ArrowWraps(n: nat, i: nat)
    requires 0 < n <= 100 && i < n
    ensures ArrowTarget(Cells(n)[i], false, n) == Cells(n)[Next(i, n)]
    ensures ArrowTarget(Cells(n)[i], true, n) == Cells(n)[Prev(i, n)]
  {
    ArrowDownWraps(n, i);
    ArrowUpWraps(n, i);
  }

  lemma ArrowDownWraps(n: nat, i: nat)
    requires 0 < n <= 100 && i < n
    ensures ArrowTarget(Cells(n)[i], false, n) == Cells(n)[Next(i, n)]
  {
    if i + 1 == n { ModOnce(i + 1, n); } else { ModBelow(i + 1, n); }
    assert StepIndex(i, false, n) == Next(i, n);
    ArrowOnCell(n, i, false, Next(i, n));
  }

  lemma ArrowUpWraps(n: nat, i: nat)
    requires 0 < n <= 100 && i < n
    ensures ArrowTarget(Cells(n)[i], true, n) == Cells(n)[Prev(i, n)]
  {
    if i == 0 { ModBelow(i - 1 + n, n); } else { ModOnce(i - 1 + n, n); }
    assert StepIndex(i, true, n) == Prev(i, n);
    ArrowOnCell(n, i, true, Prev(i, n));
  }

  /** ArrowUp undoes ArrowDown and the other way round, and both stay in the column. */
  lemma ArrowInverse(n: nat, i: nat)
    requires 0 < n <= 100 && i < n
    ensures ArrowTarget(Cells(n)[i], false, n) in Cells(n) && ArrowTarget(Cells(n)[i], true, n) in Cells(n)
    ensures ArrowTarget(ArrowTarget(Cells(n)[i], false, n), true, n) == Cells(n)[i]
    ensures ArrowTarget(ArrowTarget(Cells(n)[i], true, n), false, n) == Cells(n)[i]
  {
    NextPrev(i, n);
    ArrowWraps(n, i);
    ArrowWraps(n, Next(i, n));
    ArrowWraps(n, Prev(i, n));
    InCells(n, Next(i, n));
    InCells(n, Prev(i, n));
  }

  /** Stepping forward and back around a column of `n` cells returns to the start. */
  lemma NextPrev(i: nat, n: nat)
    requires i < n
    ensures Next(i, n) < n && Prev(i, n) < n
    ensures Prev(Next(i, n), n) == i && Next(Prev(i, n), n) == i
  {
  }

  lemma InCells(n: nat, k: nat)
    requires k < n
    ensures Cells(n)[k] in Cells(n)
  {
  }

  /** A valid time splits into its two two-character halves. */
  lemma SplitValidTime(s: string)
    requires TimeInput.IsValidTime(s)
    ensures SplitTime(s) == (Some(s[..2]), Some(s[3..]))
    ensures Restore(s) == SplitTime(s)
  {
    assert s[..2] == [s[0], s[1]] && s[3..] == [s[3], s[4]];
    TimeInput.SplitTime(s);
  }

  /** Cancel's restore and OK's composition are inverse: a valid time survives both. */
  lemma RestoreCompose(s: string)
    requires TimeInput.IsValidTime(s)
    ensures ComposeTime(Restore(s).0, Restore(s).1) == s
  {
    SplitValidTime(s);
    TimeInput.Around(s, 2);
  }

  /** An invalid `selectedTime` clears both cells, so OK right after Cancel commits nothing. */
  lemma RestoreInvalid(s: string)
    requires !TimeInput.IsValidTime(s)
    ensures Restore(s) == (None, None)
    ensures !TimeInput.IsValidTime(ComposeTime(None, None))
  {
  }

  /** The other way round: cells whose composition is valid are exactly what Cancel restores from it. */
  lemma ComposeRestore(hour: Option<string>, minute: Option<string>)
    requires TimeInput.IsValidTime(ComposeTime(hour, minute))
    ensures Restore(ComposeTime(hour, minute)) == (hour, minute)
  {
    var s := ComposeTime(hour, minute);
    var h := if hour.None? then "HH" else hour.value;
    var m := if minute.None? then "mm" else minute.value;
    assert s == h + [':'] + m;
    assert s[|h|] == ':';
    assert h == s[..2] && m == s[3..];
    SplitValidTime(s);
  }

  /** The Tab trap wraps the focus in both directions, and Shift+Tab undoes a wrapping Tab. */
  lemma TabTrapCycles<E>(focusables: seq<E>)
    requires |focusables| > 0
    ensures TabTrap(focusables, focusables[0], true) == Some(focusables[|focusables| - 1])
    ensures TabTrap(focusables, focusables[|focusables| - 1], false) == Some(focusables[0])
    ensures TabTrap(focusables, TabTrap(focusables, focusables[|focusables| - 1], false).value, true) == Some(focusables[|focusables| - 1])
  {
  }
}
