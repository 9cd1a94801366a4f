/**
 * The calendar helpers shared by the date and time fields: `zeroPad`,
 * `toOrdinal` and `daysInMonth`.
 */
module Utils {
  import opened Text
  import Gregorian

  function Pow10(k: nat): (p: nat)
    ensures p >= 1
  {
    if k == 0 then 1 else 10 * Pow10(k - 1)
  }

  /** `zeroPad(num, places)`: `String(num).padStart(places, "0")`. */
  function ZeroPad(num: int, places: int): (s: string)
    ensures num >= 0 ==> AllDigits(s)
  {
    PadStartZero(IntToString(num), places)
  }

  /** `suffixes[i]` for `["th", "st", "nd", "rd"]`; `None` is `undefined`. */
  function SuffixAt(i: int): Option<string> {
    if i == 0 then Some("th")
    else if i == 1 then Some("st")
    else if i == 2 then Some("nd")
    else if i == 3 then Some("rd")
    else None
  }

  /** `toOrdinal(num)`; `None` is an omitted argument. */
  function ToOrdinal(num: Option<int>): (s: string)
    ensures num.None? <==> s == ""
  {
    match num
    case None => ""
    case Some(n) =>
      IntToString(n) + SuffixOf(JsRem(n, 100))
  }

  /** `suffixes[(value - 20) % 10] || suffixes[value] || suffixes[0]`. */
  function SuffixOf(value: int): string {
    match SuffixAt(JsRem(value - 20, 10))
    case Some(t) => t
    case None =>
      match SuffixAt(value)
      case Some(t) => t
      case None => "th"
  }

  /** The English ordinal suffix, stated independently of the lookup table. */
  function EnglishSuffix(n: nat): string {
    if 11 <= n % 100 <= 13 then "th"
    else if n % 10 == 1 then "st"
    else if n % 10 == 2 then "nd"
    else if n % 10 == 3 then "rd"
    else "th"
  }

  /**
   * `daysInMonth(month, year)`: 31 when either is omitted, otherwise the day
   * of `new Date(year, month, 0)`, the last day of the month before the
   * 0-based month `month`, i.e. of the 1-based month `month`. As the `Date`
   * constructor does, a year in 0..99 means 1900..1999 and a month outside
   * 0..11 carries into the year.
   */
  function DaysInMonth(month: Option<int>, year: Option<int>): (n: int)
    ensures 28 <= n <= 31
    ensures month.None? || year.None? ==> n == 31
  {
    if month.None? || year.None? then 31
    else
      var y := if 0 <= year.value <= 99 then 1900 + year.value else year.value;
      var carriedYear := y + month.value / 12;
      var monthIndex := month.value % 12;
      if monthIndex == 0 then 31 else Gregorian.MonthLength(carriedYear, monthIndex)
  }

  // ---------------------------------------------------------------------------
  // Properties
  // ---------------------------------------------------------------------------

  /** A non-negative number is padded on the left with zeros and never cut. */
  lemma ZeroPadShape(n: nat, places: int)
    ensures var digits := NatToString(n);
            var zeros := if places > |digits| then places - |digits| else 0;
            ZeroPad(n, places) == seq(zeros, _ => '0') + digits
  {
  }

  lemma {:induction false} NatToStringLength(n: nat, w: nat)
    requires 1 <= w && n < Pow10(w)
    ensures |NatToString(n)| <= w
    decreases n
  {
    if n >= 10 {
      assert w >= 2;
      NatToStringLength(n / 10, w - 1);
    }
  }

  /** Zero padding to a width wide enough for the number gives exactly that many digits. */
  lemma ZeroPadWidth(n: nat, w: nat)
    requires 1 <= w && n < Pow10(w)
    ensures |ZeroPad(n, w)| == w && AllDigits(ZeroPad(n, w))
  {
    NatToStringLength(n, w);
  }

  /** Zero padding to a width wide enough for the number is read back by `parseInt`, with or without a radix. */
  lemma ZeroPadRoundTrip(n: nat, w: nat)
    requires 1 <= w && n < Pow10(w)
    ensures |ZeroPad(n, w)| == w
    ensures ParseInt(ZeroPad(n, w)) == Some(n)
    ensures ParseIntNoRadix(ZeroPad(n, w)) == Some(n)
  {
    ZeroPadValue(n, w);
    ParseIntDigits(ZeroPad(n, w));
    NoRadixDigits(ZeroPad(n, w));
  }

  lemma ZeroPadValue(n: nat, w: nat)
    requires 1 <= w && n < Pow10(w)
    ensures |ZeroPad(n, w)| == w && AllDigits(ZeroPad(n, w)) && DigitsValue(ZeroPad(n, w)) == n
  {
    var digits := NatToString(n);
    NatToStringLength(n, w);
    ZeroPadShape(n, w);
    LeadingZerosValue(w - |digits|, digits);
    NatToStringValue(n);
  }

  /** `toOrdinal` appends the English suffix: "th" for 11..13 (mod 100), else by last digit. */
  lemma ToOrdinalEnglish(n: nat)
    ensures ToOrdinal(Some(n)) == IntToString(n) + EnglishSuffix(n)
  {
    var v := n % 100;
    assert JsRem(n, 100) == v;
    SuffixBelowHundred(v);
    LastDigits(n);
  }

  lemma LastDigits(n: nat)
    ensures EnglishSuffix(n % 100) == EnglishSuffix(n)
  {
    assert (n % 100) % 10 == n % 10;
    assert (n % 100) % 100 == n % 100;
  }

  lemma SuffixBelowHundred(v: nat)
    requires v < 100
    ensures SuffixOf(v) == EnglishSuffix(v)
  {
    if v >= 20 {
      SuffixFromTwenty(v);
    } else if v >= 10 {
      SuffixTeens(v);
    } else {
      SuffixUnits(v);
    }
  }

  lemma SuffixFromTwenty(v: nat)
    requires 20 <= v < 100
    ensures SuffixOf(v) == EnglishSuffix(v)
  {
    assert JsRem(v - 20, 10) == v % 10;
  }

  lemma SuffixTeens(v: nat)
    requires 10 <= v < 20
    ensures SuffixOf(v) == EnglishSuffix(v)
  {
    assert JsRem(v - 20, 10) == if v == 10 then 0 else v - 20;
  }

  lemma SuffixUnits(v: nat)
    requires v < 10
    ensures SuffixOf(v) == EnglishSuffix(v)
  {
    assert JsRem(v - 20, 10) == if v == 0 then 0 else v - 10;
  }

  /** For real months and years, `daysInMonth` is the Gregorian month length. */
  lemma DaysInMonthGregorian(m: int, y: int)
    requires 1 <= m <= 12 && y >= 1
    ensures DaysInMonth(Some(m), Some(y)) == Gregorian.MonthLength(y, m)
  {
    if y <= 99 {
      assert Gregorian.IsLeapYear(1900 + y) == Gregorian.IsLeapYear(y);
    }
    if m == 12 {
      assert DaysInMonth(Some(m), Some(y)) == 31;
    }
  }

  /** February has 29 days exactly in leap years. */
  lemma FebruaryLeap(y: int)
    requires y >= 1
    ensures DaysInMonth(Some(2), Some(y)) == 29 <==> (y % 4 == 0 && (y % 100 != 0 || y % 400 == 0))
  {
    DaysInMonthGregorian(2, y);
  }
}
