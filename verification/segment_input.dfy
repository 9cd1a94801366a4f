/**
 * `date-time-input.tsx`: the older segment field, a content-editable span
 * (`NumberInput`) whose bounds and placeholder come from `getDateMetadata`.
 * Digits are entered by "rolling": each keystroke is appended to the current
 * number if the result stays in range, and otherwise replaces it.
 * The component keeps its value in local state only; its `onChange` prop is
 * never read, so no handler here notifies anyone.
 */
module DateTimeInput {
  import opened Text
  import Gregorian
  import Utils

  /** The `DateTimeField` union; `Other` is any other string reaching the `default` branch. */
  datatype DateTimeField = Month | Day | Year | Hour | Minute | Second | Other

  /** A `Dayjs` instant as far as these fields read it. */
  datatype Moment = Moment(date: Gregorian.Date, hour: int, minute: int, second: int)

  /** The parts of `DateMetadataType` that drive entry: bounds, the value `aria-valuenow` shows, the placeholder. */
  datatype Metadata = Metadata(min: int, max: int, value: Option<int>, pattern: string)

  /**
   * `getDateMetadata(type, date)`. dayjs months are 0-based, so the month's
   * value adds one, while the day's maximum passes the 0-based month straight
   * to `daysInMonth`.
   */
  function GetDateMetadata(field: DateTimeField, date: Option<Moment>): Metadata {
    var day := if date.Some? then Some(date.value.date.day) else None;
    var month := if date.Some? then Some(date.value.date.month - 1) else None;
    var year := if date.Some? then Some(date.value.date.year) else None;
    match field
    case Month => Metadata(1, 12, if month.None? then None else Some(month.value + 1), "MM")
    case Day => Metadata(1, Utils.DaysInMonth(month, year), day, "DD")
    case Year => Metadata(1, 2099, year, "YYYY")
    case Hour => Metadata(0, 23, if date.Some? then Some(date.value.hour) else None, "HH")
    case Minute => Metadata(0, 59, if date.Some? then Some(date.value.minute) else None, "mm")
    case Second => Metadata(0, 59, if date.Some? then Some(date.value.second) else None, "ss")
    case Other => Metadata(0, 0, None, "")
  }

  /**
   * `date?.get(type)`, the value the component starts from. dayjs reads
   * "month" 0-based and "day" as the day of the week (0 is Sunday).
   */
  function InitialValue(field: DateTimeField, date: Option<Moment>): Option<int> {
    if date.None? then None
    else
      var m := date.value;
      match field
      case Month => Some(m.date.month - 1)
      case Day =>
        if 1 <= m.date.month <= 12 then Some(Gregorian.Weekday(m.date)) else None
      case Year => Some(m.date.year)
      case Hour => Some(m.hour)
      case Minute => Some(m.minute)
      case Second => Some(m.second)
      case Other => None
  }

  predicate InRange(n: int, meta: Metadata) { meta.min <= n && n <= meta.max }

  /** The number `parseInt` reads from a non-empty digit string, if it lies within the bounds. */
  function Accept(text: string, meta: Metadata): Option<int> {
    var n := ParseInt(text);
    if n.Some? && InRange(n.value, meta) then n else None
  }

  /**
   * Rolling entry of the non-empty digits `input` into the current value:
   * from nothing, the input if in range; otherwise the current number's text
   * followed by the input if in range, else the input alone if in range, else
   * no change.
   */
  function Roll(current: Option<int>, input: string, meta: Metadata): Option<int> {
    if current.None? then Accept(input, meta)
    else
      var appended := Accept(IntToString(current.value) + input, meta);
      if appended.Some? then appended
      else
        var alone := Accept(input, meta);
        if alone.Some? then alone else current
  }

  /** The displayed text: the placeholder when empty, otherwise the zero-padded number. */
  function StrValue(value: Option<int>, meta: Metadata): (s: string)
    ensures value.None? ==> s == meta.pattern
  {
    if value.None? then meta.pattern else Utils.ZeroPad(value.value, |meta.pattern|)
  }

  /** A value that fits the placeholder is shown at its width and reads back as itself. */
  lemma StrValueRoundTrip(v: nat, meta: Metadata)
    requires 1 <= |meta.pattern| && v < Utils.Pow10(|meta.pattern|)
    ensures |StrValue(Some(v), meta)| == |meta.pattern|
    ensures AllDigits(StrValue(Some(v), meta))
    ensures ParseInt(StrValue(Some(v), meta)) == Some(v)
  {
    Utils.ZeroPadWidth(v, |meta.pattern|);
    Utils.ZeroPadRoundTrip(v, |meta.pattern|);
  }

  /** The keys `onKeyDown` lets through untouched. */
  predicate AllowedKey(key: string) {
    key == "ArrowLeft" || key == "ArrowRight" || key == "Tab" || key == "Home" || key == "End"
  }

  class NumberInput {
    /** The `value` state. */
    var value: Option<int>
    /** The memoised `getDateMetadata(type, date)`. */
    const meta: Metadata

    constructor (field: DateTimeField, date: Option<Moment>)
      ensures meta == GetDateMetadata(field, date)
      ensures value == InitialValue(field, date)
    {
      meta := GetDateMetadata(field, date);
      value := InitialValue(field, date);
    }

    function Text(): string
      reads this
    {
      StrValue(value, meta)
    }

    /**
     * `onBeforeInput` with the event's `data` (`None` is `null`). The default
     * action is always cancelled: the span's text only changes through the state.
     */
    method OnBeforeInput(data: Option<string>)
      modifies this
      ensures var input := if data.Some? then data.value else "";
              if !AllDigits(input) then value == old(value)
              else if input == "" then value == None
              else value == Roll(old(value), input, meta)
    {
      var input := if data.Some? then data.value else "";
      if !AllDigits(input) {
        return;
      }
      if input == "" {
        value := None;
        return;
      }
      value := Roll(value, input, meta);
    }

    /** `onPaste`: the pasted text's digits, cut to the placeholder's width, are rolled in. */
    method OnPaste(text: string)
      modifies this
      ensures var digits := DigitsOnly(text);
              var cut := if |digits| <= |meta.pattern| then digits else digits[..|meta.pattern|];
              value == if cut == "" then old(value) else Roll(old(value), cut, meta)
    {
      var digits := DigitsOnly(text);
      var cut := if |digits| <= |meta.pattern| then digits else digits[..|meta.pattern|];
      if cut != "" {
        value := Roll(value, cut, meta);
      }
    }

    /** `onKeyDown`; `prevented` is whether the default action is cancelled. */
    method OnKeyDown(key: string, ctrlKey: bool, metaKey: bool) returns (prevented: bool)
      modifies this
      ensures AllowedKey(key) || ctrlKey || metaKey ==> value == old(value) && !prevented
      ensures !(AllowedKey(key) || ctrlKey || metaKey) ==>
                if key == "Backspace" || key == "Delete" then prevented && value == None
                else if key == "ArrowUp" then
                  var next := if old(value).None? then meta.min else old(value).value + 1;
                  prevented && value == (if next <= meta.max then Some(next) else old(value))
                else if key == "ArrowDown" then
                  var next := if old(value).None? then 0 else old(value).value - 1;
                  prevented && value == (if next >= meta.min then Some(next) else old(value))
                else value == old(value) && prevented == (|key| == 1 && !IsDigit(key[0]))
    {
      if AllowedKey(key) || ctrlKey || metaKey {
        return false;
      }
      if key == "Backspace" || key == "Delete" {
        value := None;
        return true;
      }
      if key == "ArrowUp" {
        var next := if value.None? then meta.min else value.value + 1;
        if next <= meta.max {
          value := Some(next);
        }
        return true;
      }
      if key == "ArrowDown" {
        var next := if value.None? then 0 else value.value - 1;
        if next >= meta.min {
          value := Some(next);
        }
        return true;
      }
      prevented := |key| == 1 && !IsDigit(key[0]);
    }
  }

  // ---------------------------------------------------------------------------
  // Properties
  // ---------------------------------------------------------------------------

  /** Every field's bounds are ordered, so each field admits some value. */
  lemma MetadataBoundsOrdered(field: DateTimeField, date: Option<Moment>)
    ensures GetDateMetadata(field, date).min <= GetDateMetadata(field, date).max
  {
  }

  /** For a valid instant, each field's own value lies within that field's bounds, the day excepted. */
  lemma MetadataValueInRange(field: DateTimeField, m: Moment)
    requires Gregorian.Valid(m.date) && 1 <= m.date.year <= 2099
    requires 0 <= m.hour <= 23 && 0 <= m.minute <= 59 && 0 <= m.second <= 59
    requires field != Day && field != Other
    ensures var meta := GetDateMetadata(field, Some(m));
            meta.value.Some? && InRange(meta.value.value, meta)
  {
  }

  /**
   * The day's maximum is the length of the calendar month before the date's
   * month (December's 31 for January), not the length of the date's own month.
   */
  lemma DayMaxIsPrecedingMonth(d: Gregorian.Date)
    requires Gregorian.Valid(d) && d.year >= 1
    ensures GetDateMetadata(Day, Some(Moment(d, 0, 0, 0))).max ==
            if d.month == 1 then 31 else Gregorian.MonthLength(d.year, d.month - 1)
  {
    if d.month > 1 {
      Utils.DaysInMonthGregorian(d.month - 1, d.year);
    }
  }

  /** Hence 31 March 2023 lies outside its own day bounds: the maximum offered is February's 28. */
  lemma DayMaxExcludesMarch31()
    ensures var meta := GetDateMetadata(Day, Some(Moment(Gregorian.Date(2023, 3, 31), 0, 0, 0)));
            meta.max == 28 && meta.value == Some(31) && !InRange(31, meta)
  {
    DayMaxIsPrecedingMonth(Gregorian.Date(2023, 3, 31));
  }

  /** The day maximum the 1-based month calls for. */
  function DayMaxCorrected(date: Option<Moment>): (n: int)
    ensures date.None? ==> n == 31
  {
    if date.None? then 31 else Utils.DaysInMonth(Some(date.value.date.month), Some(date.value.date.year))
  }

  /** With the 1-based month, the maximum is the date's own month length, so every valid day is in range. */
  lemma DayMaxCorrectedFits(m: Moment)
    requires Gregorian.Valid(m.date) && m.date.year >= 1
    ensures DayMaxCorrected(Some(m)) == Gregorian.MonthLength(m.date.year, m.date.month)
    ensures 1 <= m.date.day <= DayMaxCorrected(Some(m))
  {
    Utils.DaysInMonthGregorian(m.date.month, m.date.year);
  }

  /** The starting value is not the metadata's value: the month is one less and the day is a weekday. */
  lemma InitialValueMismatch()
    ensures var m := Some(Moment(Gregorian.Date(2024, 5, 12), 0, 0, 0));
            InitialValue(Month, m) == Some(4) && GetDateMetadata(Month, m).value == Some(5) &&
            InitialValue(Day, m) == Some(0) && GetDateMetadata(Day, m).value == Some(12)
  {
  }

  /** Rolling entry settles on nothing, the current value, or a number within the bounds. */
  lemma RollAllowed(current: Option<int>, input: string, meta: Metadata)
    ensures var r := Roll(current, input, meta);
            r == current || (r.Some? && InRange(r.value, meta))
  {
  }

  /**
   * On a non-negative current value `v`, typing digit string `t` gives the
   * number whose decimal text is `v`'s followed by `t` when in range, else
   * `t`'s own number when in range, else `v`.
   */
  lemma {:induction false} RollDigits(v: nat, t: string, meta: Metadata)
    requires t != [] && AllDigits(t)
    ensures var joined := NatToString(v) + t;
            AllDigits(joined) &&
            Roll(Some(v), t, meta) ==
              if InRange(DigitsValue(joined), meta) then Some(DigitsValue(joined))
              else if InRange(DigitsValue(t), meta) then Some(DigitsValue(t))
              else Some(v)
  {
    var joined := NatToString(v) + t;
    assert AllDigits(joined);
    ParseIntDigits(joined);
    ParseIntDigits(t);
  }

  /** The day field of 12 May 2024: bounds 1..30 (April's length) and value 12. */
  lemma MayDayMetadata()
    ensures GetDateMetadata(Day, Some(Moment(Gregorian.Date(2024, 5, 12), 0, 0, 0))) == Metadata(1, 30, Some(12), "DD")
  {
    DayMaxIsPrecedingMonth(Gregorian.Date(2024, 5, 12));
  }

  /** In that day field, "2" then "5" gives 25. */
  lemma RollingTwentyFive()
    ensures Roll(None, "2", Metadata(1, 30, Some(12), "DD")) == Some(2)
    ensures Roll(Some(2), "5", Metadata(1, 30, Some(12), "DD")) == Some(25)
  {
    assert DigitsValue("2") == 2 by { assert "2"[..0] == ""; }
    ParseIntDigits("2");
    RollDigits(2, "5", Metadata(1, 30, Some(12), "DD"));
    assert NatToString(2) + "5" == "25";
    assert DigitsValue("25") == 25 by { assert "25"[..1] == "2"; assert "2"[..0] == ""; }
  }

  /** At 25, "9" would make 259, so it is taken alone; at 9, "9" would make 99, so 9 stays. */
  lemma RollingNine()
    ensures Roll(Some(25), "9", Metadata(1, 30, Some(12), "DD")) == Some(9)
    ensures Roll(Some(9), "9", Metadata(1, 30, Some(12), "DD")) == Some(9)
  {
    var meta := Metadata(1, 30, Some(12), "DD");
    assert DigitsValue("9") == 9 by { assert "9"[..0] == ""; }
    RollDigits(25, "9", meta);
    assert NatToString(25) == "25" by { assert NatToString(2) == "2"; }
    assert NatToString(25) + "9" == "259";
    assert DigitsValue("259") == 259 by { assert "259"[..2] == "25"; assert "25"[..1] == "2"; assert "2"[..0] == ""; }
    RollDigits(9, "9", meta);
    assert NatToString(9) + "9" == "99";
    assert DigitsValue("99") == 99 by { assert "99"[..1] == "9"; }
  }
}
