/**
 * `TimeInput`: a time of day typed as two `DateTimeNumberInput` segments,
 * hour and minute, serialised as `HH:mm`. The validity regex, the parsing of
 * the `value` prop into the segments, the serialisation and the segment
 * change handler are modelled; the notified string is an explicit output.
 */
module TimeInput {
  import opened Text
  import Utils

  /**
   * `isValidTime`: `/^(([0|1]\d)|(2[0-3])):([0-5]\d)$/`. The bracket class
   * `[0|1]` holds the three characters `0`, `|` and `1`.
   */
  predicate IsValidTime(s: string) {
    |s| == 5 &&
    (((s[0] == '0' || s[0] == '|' || s[0] == '1') && IsDigit(s[1])) || (s[0] == '2' && '0' <= s[1] <= '3')) &&
    s[2] == ':' && '0' <= s[3] <= '5' && IsDigit(s[4])
  }

  /** A time as the component means it: two digits of hour 0..23, a colon, two digits of minute 0..59. */
  predicate IsTimeOfDay(s: string) {
    |s| == 5 && AllDigits(s[..2]) && s[2] == ':' && AllDigits(s[3..]) &&
    DigitsValue(s[..2]) <= 23 && DigitsValue(s[3..]) <= 59
  }

  /** The regex with the bracket class `[01]` the hour's first digit calls for. */
  predicate IsValidTimeCorrected(s: string) {
    IsValidTime(s) && s[0] != '|'
  }

  datatype HourMinute = HourMinute(hour: Option<int>, minute: Option<int>)

  /** The value-sync effect: a non-empty value is split on ':' and each part parsed (`NaN` is `None`). */
  function ParseTime(value: string): HourMinute {
    if value == [] then HourMinute(None, None)
    else
      var parts := Split(value, ':');
      HourMinute(ParseIntAt(parts, 0), ParseIntAt(parts, 1))
  }

  /** `timeStrValue()`: "" when both are empty, else each part zero-padded or its placeholder, joined by ':'. */
  function TimeStr(t: HourMinute): string {
    if t.hour.None? && t.minute.None? then ""
    else
      (if t.hour.None? then "HH" else Utils.ZeroPad(t.hour.value, 2)) + ":" +
      (if t.minute.None? then "mm" else Utils.ZeroPad(t.minute.value, 2))
  }

  datatype TimeField = Hour | Minute

  /**
   * The segment bounds handed to the two `DateTimeNumberInput`s: no cross-field
   * constraint, and every value within them fits a two-digit cell.
   */
  function Bounds(f: TimeField): (b: (int, int))
    ensures b.0 == 0 < b.1 < 100
  {
    match f
    case Hour => (0, 23)
    case Minute => (0, 59)
  }

  /** The state `handleTimeChange(type, num)` sets: only the edited field changes. */
  function ApplyTimeChange(t: HourMinute, f: TimeField, num: Option<int>): HourMinute {
    match f
    case Hour => t.(hour := num)
    case Minute => t.(minute := num)
  }

  class TimeInputState {
    var hour: Option<int>
    var minute: Option<int>

    function State(): HourMinute
      reads this
    {
      HourMinute(hour, minute)
    }

    function TimeStrValue(): string
      reads this
    {
      TimeStr(State())
    }

    /** Mounting with `value`, once the sync effect has run. */
    constructor (value: string)
      ensures State() == ParseTime(value)
    {
      var t := ParseTime(value);
      hour, minute := t.hour, t.minute;
    }

    /** The sync effect on a new `value`. */
    method ReceiveValue(value: string)
      modifies this
      ensures State() == ParseTime(value)
    {
      var t := ParseTime(value);
      hour, minute := t.hour, t.minute;
    }

    /**
     * `handleTimeChange(type, num)`: `onChange` is always called, with
     * `timeStrValue()` evaluated over the hour and minute of the current
     * render, i.e. the time BEFORE this change.
     */
    method HandleTimeChange(f: TimeField, num: Option<int>) returns (notice: string)
      modifies this
      ensures State() == ApplyTimeChange(old(State()), f, num)
      ensures notice == TimeStr(old(State()))
    {
      notice := TimeStrValue();
      var next := ApplyTimeChange(State(), f, num);
      hour, minute := next.hour, next.minute;
    }
  }

  /** The string the change should report: that of the state after the change. */
  function NotifiedAfterTimeChange(t: HourMinute, f: TimeField, num: Option<int>): string {
    TimeStr(ApplyTimeChange(t, f, num))
  }

  // ---------------------------------------------------------------------------
  // Properties
  // ---------------------------------------------------------------------------

  lemma TwoDigitsValue(t: string)
    requires |t| == 2 && AllDigits(t)
    ensures DigitsValue(t) == DigitValue(t[0]) * 10 + DigitValue(t[1])
  {
    var h := t[..1];
    assert h[..0] == [] && h[0] == t[0];
    assert DigitsValue(h) == DigitValue(t[0]);
    assert t[..|t| - 1] == h;
  }

  /** The corrected regex accepts exactly the times of day. */
  lemma CorrectedIsTimeOfDay(s: string)
    ensures IsValidTimeCorrected(s) <==> IsTimeOfDay(s)
  {
    if |s| == 5 {
      assert s[..2] == [s[0], s[1]];
      assert s[3..] == [s[3], s[4]];
      if AllDigits(s[..2]) {
        TwoDigitsValue(s[..2]);
      }
      if AllDigits(s[3..]) {
        TwoDigitsValue(s[3..]);
      }
    }
  }

  /** The regex as written accepts a '|' where the hour's tens digit belongs. */
  lemma PipeAccepted()
    ensures IsValidTime("|5:30") && !IsTimeOfDay("|5:30")
  {
    assert "|5:30"[..2][0] == '|';
  }

  /** The cases the regex is meant to accept and reject. */
  lemma IsValidTimeExamples()
    ensures IsValidTime("00:00") && IsValidTime("09:15") && IsValidTime("23:59") && IsValidTime("12:34")
    ensures !IsValidTime("24:00") && !IsValidTime("12:60") && !IsValidTime("99:99") && !IsValidTime("ab:cd")
    ensures !IsValidTime("12:") && !IsValidTime(":34") && !IsValidTime("")
  {
  }

  lemma {:induction false} TwoDigitsRoundTrip(t: string)
    requires |t| == 2 && AllDigits(t)
    ensures Utils.ZeroPad(DigitsValue(t), 2) == t
  {
    TwoDigitsValue(t);
    var a, b := DigitValue(t[0]), DigitValue(t[1]);
    var n := a * 10 + b;
    assert n / 10 == a && n % 10 == b;
    if a == 0 {
      assert NatToString(n) == [DigitChar(b)];
    } else {
      assert NatToString(n) == NatToString(a) + [DigitChar(b)];
    }
  }

  lemma SplitTime(s: string)
    requires |s| == 5 && s[2] == ':' && ':' !in s[..2] && ':' !in s[3..]
    ensures Split(s, ':') == [s[..2], s[3..]]
  {
    SplitPrefix(s[..2], s[3..], ':');
    assert s == s[..2] + [':'] + s[3..];
    SplitNoSeparator(s[3..], ':');
  }

  /** A two-digit cell is read back by `parseInt` and re-padded to itself. */
  lemma TwoDigitCell(t: string)
    requires |t| == 2 && AllDigits(t)
    ensures ParseIntNoRadix(t) == Some(DigitsValue(t)) && Utils.ZeroPad(DigitsValue(t), 2) == t
    ensures ':' !in t
  {
    NoRadixDigits(t);
    TwoDigitsRoundTrip(t);
  }

  /** The minute a valid time spells with its last two characters. */
  function MinuteValue(s: string): nat
    requires IsValidTime(s)
  {
    assert s[3..] == [s[3], s[4]];
    DigitsValue(s[3..])
  }

  /** The hour a valid time spells with its first two characters, when both are digits. */
  function HourValue(s: string): nat
    requires IsValidTime(s) && s[0] != '|'
  {
    assert s[..2] == [s[0], s[1]];
    DigitsValue(s[..2])
  }

  lemma ParseTimeCells(s: string, hh: string, mm: string)
    requires s == hh + [':'] + mm && ':' !in hh && ':' !in mm && hh != []
    ensures ParseTime(s) == HourMinute(ParseIntNoRadix(hh), ParseIntNoRadix(mm))
  {
    SplitPrefix(hh, mm, ':');
    SplitNoSeparator(mm, ':');
  }

  lemma TimeStrCells(h: int, m: int)
    requires 0 <= h < 100 && 0 <= m < 100
    ensures TimeStr(HourMinute(Some(h), Some(m))) == Utils.ZeroPad(h, 2) + [':'] + Utils.ZeroPad(m, 2)
  {
  }

  lemma Around(s: string, i: nat)
    requires i < |s|
    ensures s == s[..i] + [s[i]] + s[i + 1..]
  {
  }

  /** Round trip: a valid time that starts with a digit is parsed and serialised back unchanged. */
  lemma ParseTimeRoundTrip(s: string)
    requires IsValidTime(s) && s[0] != '|'
    ensures ParseTime(s) == HourMinute(Some(HourValue(s)), Some(MinuteValue(s)))
    ensures TimeStr(ParseTime(s)) == s
  {
    var hh, mm := s[..2], s[3..];
    assert hh == [s[0], s[1]] && mm == [s[3], s[4]];
    assert AllDigits(hh) && AllDigits(mm);
    TwoDigitCell(hh);
    TwoDigitCell(mm);
    Around(s, 2);
    ParseTimeCells(s, hh, mm);
    TwoDigitsValue(hh);
    TwoDigitsValue(mm);
    TimeStrCells(DigitsValue(hh), DigitsValue(mm));
  }

  /** A valid time that starts with '|' loses its hour: it comes back as "HH" followed by its own ":mm". */
  lemma PipeRoundTrip(s: string)
    requires IsValidTime(s) && s[0] == '|'
    ensures ParseTime(s) == HourMinute(None, Some(MinuteValue(s)))
    ensures TimeStr(ParseTime(s)) == "HH" + s[2..] != s
  {
    PipeParse(s);
    PipeShow(s, MinuteValue(s));
  }

  lemma PipeShow(s: string, m: int)
    requires |s| >= 3 && s[0] == '|' && s[2] == ':' && Utils.ZeroPad(m, 2) == s[3..]
    ensures TimeStr(HourMinute(None, Some(m))) == "HH" + s[2..] != s
  {
    MissingHour(m, s[3..]);
    ColonRest(s);
  }

  lemma ColonRest(s: string)
    requires |s| >= 3 && s[0] == '|' && s[2] == ':'
    ensures "HH" + [':'] + s[3..] == "HH" + s[2..] != s
  {
    assert s[2..] == [':'] + s[3..];
    assert ("HH" + s[2..])[0] != s[0];
  }

  lemma PipeParse(s: string)
    requires IsValidTime(s) && s[0] == '|'
    ensures Utils.ZeroPad(MinuteValue(s), 2) == s[3..]
    ensures ParseTime(s) == HourMinute(None, Some(MinuteValue(s)))
  {
    PipeCells(s);
    TwoDigitCell(s[3..]);
    ParseTimeCells(s, s[..2], s[3..]);
    NoRadixNonNumeric(s[..2]);
  }

  /** A valid time that starts with '|' is a non-numeric hour cell, a colon and a two-digit minute cell. */
  lemma PipeCells(s: string)
    requires IsValidTime(s) && s[0] == '|'
    ensures s == s[..2] + [':'] + s[3..] && ':' !in s[..2] && s[..2] != []
    ensures !IsDigit(s[..2][0]) && !IsJsWhitespace(s[..2][0]) && s[..2][0] != '-' && s[..2][0] != '+'
    ensures |s[3..]| == 2 && AllDigits(s[3..])
  {
    assert s[..2] == [s[0], s[1]] && s[3..] == [s[3], s[4]];
    Around(s, 2);
  }

  lemma MissingHour(m: int, cell: string)
    requires Utils.ZeroPad(m, 2) == cell
    ensures TimeStr(HourMinute(None, Some(m))) == "HH" + [':'] + cell
  {
  }

  /** A present value below 100 pads to two digits that parse back; an absent one shows a placeholder that does not parse. */
  lemma CellRoundTrip(v: Option<int>, placeholder: string)
    requires v.None? || 0 <= v.value < 100
    requires placeholder == "HH" || placeholder == "mm"
    ensures var c := if v.None? then placeholder else Utils.ZeroPad(v.value, 2);
            c != [] && ':' !in c && ParseIntNoRadix(c) == v
  {
    if v.Some? {
      assert Utils.Pow10(2) == 100;
      Utils.ZeroPadRoundTrip(v.value, 2);
      Utils.ZeroPadWidth(v.value, 2);
    } else {
      NoRadixNonNumeric(placeholder);
    }
  }

  /** The value side of the round trip: two-digit hour and minute survive serialising and parsing. */
  lemma TimeStrRoundTrip(t: HourMinute)
    requires !(t.hour.None? && t.minute.None?)
    requires t.hour.None? || 0 <= t.hour.value < 100
    requires t.minute.None? || 0 <= t.minute.value < 100
    ensures ParseTime(TimeStr(t)) == t
  {
    var hh := if t.hour.None? then "HH" else Utils.ZeroPad(t.hour.value, 2);
    var mm := if t.minute.None? then "mm" else Utils.ZeroPad(t.minute.value, 2);
    CellRoundTrip(t.hour, "HH");
    CellRoundTrip(t.minute, "mm");
    assert TimeStr(t) == hh + [':'] + mm;
    ParseTimeCells(TimeStr(t), hh, mm);
  }

  /** A change replaces the edited field only and does not clamp the other. */
  lemma ApplyTimeChangeFrame(t: HourMinute, f: TimeField, num: Option<int>)
    ensures var r := ApplyTimeChange(t, f, num);
            (f == Hour ==> r.hour == num && r.minute == t.minute) &&
            (f == Minute ==> r.minute == num && r.hour == t.hour)
  {
  }

  /** The string taken after the change always parses back to the new state. */
  lemma NotifiedAfterTimeChangeParses(t: HourMinute, f: TimeField, num: Option<int>)
    requires t.hour.None? || 0 <= t.hour.value < 100
    requires t.minute.None? || 0 <= t.minute.value < 100
    requires num.None? || 0 <= num.value < 100
    requires !(ApplyTimeChange(t, f, num).hour.None? && ApplyTimeChange(t, f, num).minute.None?)
    ensures ParseTime(NotifiedAfterTimeChange(t, f, num)) == ApplyTimeChange(t, f, num)
  {
    TimeStrRoundTrip(ApplyTimeChange(t, f, num));
  }

  /** The reported string differs from the new state's as soon as the edited field really changes. */
  lemma StaleTimeNotice(t: HourMinute, f: TimeField, num: Option<int>)
    requires t.hour.None? || 0 <= t.hour.value < 100
    requires t.minute.None? || 0 <= t.minute.value < 100
    requires num.None? || 0 <= num.value < 100
    requires ApplyTimeChange(t, f, num) != t
    requires !(t.hour.None? && t.minute.None?) && !(ApplyTimeChange(t, f, num).hour.None? && ApplyTimeChange(t, f, num).minute.None?)
    ensures TimeStr(t) != NotifiedAfterTimeChange(t, f, num)
  {
    TimeStrRoundTrip(t);
    TimeStrRoundTrip(ApplyTimeChange(t, f, num));
  }
}
