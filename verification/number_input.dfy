/**
 * `DateTimeNumberInput`: one numeric segment (a year, month, day, hour or
 * minute) of a composite date or time field, rendered as a text input.
 * The component keeps an internal copy of its `value` prop, accepts typed
 * digits within `[min, max]`, clears on Backspace/Delete, and steps with the
 * arrow keys. Every `onChange` call is returned as a `Notice`.
 */
module DateTimeNumberInput {
  import opened Text
  import Utils

  /** Whether a handler called `onChange`, and with what (`None` is `undefined`). */
  datatype Notice = Silent | Notify(sent: Option<int>)

  predicate InRange(n: int, min: int, max: int) { min <= n && n <= max }

  /** `s.slice(0 - k)`: the last `k` characters, the whole string when `k` is 0 (since `-0` is `0`). */
  function SliceLast(s: string, k: nat): (r: string)
    ensures |r| <= |s| && r == s[|s| - |r|..]
    ensures k == 0 || |s| <= k ==> r == s
    ensures 0 < k <= |s| ==> |r| == k
  {
    if k == 0 || |s| <= k then s else s[|s| - k..]
  }

  /**
   * The value `handleChange` passes to `updateValue` when the input's text
   * becomes `text`, given the `value` prop `current`: with no current value
   * the digits are taken whole; otherwise only the last `width` digits, and
   * when those exceed `max`, their last digit alone; failing all that, the
   * current value is kept.
   */
  function ChangeTarget(current: Option<int>, text: string, min: int, max: int, width: nat): Option<int> {
    var digits := DigitsOnly(text);
    if current.None? then
      var numeric := ParseInt(digits);
      if numeric.Some? && InRange(numeric.value, min, max) then numeric else current
    else
      var numeric := ParseInt(SliceLast(digits, width));
      if numeric.None? then current
      else if InRange(numeric.value, min, max) then numeric
      else if numeric.value > max && InRange(numeric.value % 10, min, max) then Some(numeric.value % 10)
      else current
  }

  /** The text shown for an internal value: the pattern itself when empty, otherwise the zero-padded number. */
  function Display(internalValue: Option<int>, pattern: string): (s: string)
    ensures internalValue.None? ==> s == pattern
    ensures internalValue.Some? && internalValue.value >= 0 ==> |s| >= |pattern| && AllDigits(s)
  {
    if internalValue.None? then pattern else Utils.ZeroPad(internalValue.value, |pattern|)
  }

  /** The rendered `tabIndex`: -1 while disabled, otherwise the prop, itself defaulting to -1. */
  function TabIndex(disabled: bool, tabIndex: Option<int>): (t: int)
    ensures disabled ==> t == -1
    ensures !disabled && tabIndex.Some? ==> t == tabIndex.value
    ensures !disabled && tabIndex.None? ==> t == -1
  {
    if disabled then -1 else if tabIndex.Some? then tabIndex.value else -1
  }

  class NumberField {
    /** The `value` prop, as last rendered by the parent. */
    var value: Option<int>
    /** The `internalValue` state, which decides what is displayed. */
    var internalValue: Option<int>
    const min: int
    const max: int
    const pattern: string
    const disabled: bool

    /** What the field can hold: nothing, a number in range, or whatever the parent passed in. */
    predicate Valid()
      reads this
    {
      internalValue.None? || internalValue == value || InRange(internalValue.value, min, max)
    }

    function DisplayValue(): string
      reads this
    {
      Display(internalValue, pattern)
    }

    constructor (min: int, max: int, pattern: string, value: Option<int>, disabled: bool)
      ensures Valid()
      ensures this.min == min && this.max == max && this.pattern == pattern && this.disabled == disabled
      ensures this.value == value && internalValue == value
    {
      this.min := min;
      this.max := max;
      this.pattern := pattern;
      this.disabled := disabled;
      this.value := value;
      this.internalValue := value;
    }

    /** The parent re-renders with a new `value`; the effect copies it into the internal state. */
    method ReceiveValue(v: Option<int>)
      modifies this
      ensures Valid()
      ensures value == v && internalValue == v
    {
      value := v;
      internalValue := v;
    }

    /** `updateValue(v)`: a change of internal value, notified once; nothing when disabled or unchanged. */
    method UpdateValue(v: Option<int>) returns (notice: Notice)
      requires Valid()
      requires v.None? || v == value || InRange(v.value, min, max)
      modifies this
      ensures Valid()
      ensures value == old(value)
      ensures disabled || old(internalValue) == v ==> internalValue == old(internalValue) && notice == Silent
      ensures !disabled && old(internalValue) != v ==> internalValue == v && notice == Notify(v)
    {
      if disabled {
        return Silent;
      }
      if internalValue != v {
        internalValue := v;
        notice := Notify(v);
      } else {
        notice := Silent;
      }
    }

    /** `handleChange`: the input's text became `text`. */
    method HandleChange(text: string) returns (notice: Notice)
      requires Valid()
      modifies this
      ensures Valid()
      ensures value == old(value)
      ensures var target := ChangeTarget(old(value), text, min, max, |pattern|);
              if disabled || old(internalValue) == target then internalValue == old(internalValue) && notice == Silent
              else internalValue == target && notice == Notify(target)
    {
      var target := ChangeTarget(value, text, min, max, |pattern|);
      ChangeTargetAllowed(value, text, min, max, |pattern|);
      notice := UpdateValue(target);
    }

    /** `handleKeyDown`; `prevented` is whether the default action is cancelled. */
    method HandleKeyDown(key: string) returns (notice: Notice, prevented: bool)
      requires Valid()
      modifies this
      ensures Valid()
      ensures value == old(value)
      ensures disabled ==> internalValue == old(internalValue) && notice == Silent && !prevented
      ensures !disabled && (key == "Backspace" || key == "Delete") ==>
                prevented && internalValue == None &&
                notice == (if old(internalValue).None? then Silent else Notify(None))
      ensures !disabled && key == "ArrowUp" ==>
                prevented && internalValue == old(internalValue) &&
                var next := (if value.Some? then value.value else 0) + 1;
                notice == (if next <= max then Notify(Some(next)) else Silent)
      ensures !disabled && key == "ArrowDown" ==>
                prevented && internalValue == old(internalValue) &&
                var next := (if value.Some? then value.value else 0) - 1;
                notice == (if next >= min then Notify(Some(next)) else Silent)
      ensures key !in {"Backspace", "Delete", "ArrowUp", "ArrowDown"} ==>
                internalValue == old(internalValue) && notice == Silent && !prevented
    {
      if disabled {
        return Silent, false;
      }
      notice, prevented := Silent, false;
      if key == "Backspace" || key == "Delete" {
        notice := UpdateValue(None);
        prevented := true;
      } else if key == "ArrowUp" {
        var next := (if value.Some? then value.value else 0) + 1;
        if next <= max {
          notice := Notify(Some(next));
        }
        prevented := true;
      } else if key == "ArrowDown" {
        var next := (if value.Some? then value.value else 0) - 1;
        if next >= min {
          notice := Notify(Some(next));
        }
        prevented := true;
      }
    }
  }

  // ---------------------------------------------------------------------------
  // Properties
  // ---------------------------------------------------------------------------

  /** Whatever is typed, `handleChange` settles on nothing, a number in range, or the current value. */
  lemma ChangeTargetAllowed(current: Option<int>, text: string, min: int, max: int, width: nat)
    ensures var r := ChangeTarget(current, text, min, max, width);
            r.None? || r == current || InRange(r.value, min, max)
  {
  }

  /** With no current value, the typed digits are taken whole, and only when in range. */
  lemma {:induction false} ChangeFromEmpty(digits: string, min: int, max: int, width: nat)
    requires digits != [] && AllDigits(digits)
    ensures ChangeTarget(None, digits, min, max, width) ==
            if InRange(DigitsValue(digits), min, max) then Some(DigitsValue(digits)) else None
  {
    ParseIntDigits(digits);
  }

  /** With a current value, a digit string longer than the pattern is cut to its last `w` digits. */
  lemma {:induction false} ChangeWithValue(v: int, typed: string, min: int, max: int, w: nat)
    requires 1 <= w < |typed| && AllDigits(typed)
    ensures var last := DigitsValue(typed[|typed| - w..]);
            ChangeTarget(Some(v), typed, min, max, w) ==
              if InRange(last, min, max) then Some(last)
              else if last > max && InRange(last % 10, min, max) then Some(last % 10)
              else Some(v)
  {
    var tail := typed[|typed| - w..];
    assert DigitsOnly(typed) == typed;
    assert SliceLast(typed, w) == tail;
    assert AllDigits(tail);
    ParseIntDigits(tail);
  }

  /**
   * With a current value, typing a digit `d` after the shown digits (the
   * zero-padded value, as wide as the pattern: see `DisplayRoundTrip`) keeps
   * the last `|shown|` digits if they are in range; if they exceed `max`, `d`
   * alone is taken when in range; otherwise the value is kept.
   */
  lemma {:induction false} ChangeAppendDigit(v: int, shown: string, d: char, min: int, max: int)
    requires 1 <= |shown| && AllDigits(shown) && IsDigit(d)
    ensures var last := DigitsValue((shown + [d])[1..]);
            ChangeTarget(Some(v), shown + [d], min, max, |shown|) ==
              if InRange(last, min, max) then Some(last)
              else if last > max && InRange(DigitValue(d), min, max) then Some(DigitValue(d))
              else Some(v)
  {
    var typed := shown + [d];
    DigitAfter(shown, d);
    assert typed[|typed| - |shown|..] == typed[1..];
    ChangeWithValue(v, typed, min, max, |shown|);
  }

  lemma {:induction false} DigitAfter(shown: string, d: char)
    requires 1 <= |shown| && AllDigits(shown) && IsDigit(d)
    ensures AllDigits(shown + [d]) && DigitsValue((shown + [d])[1..]) % 10 == DigitValue(d)
  {
    var typed := shown + [d];
    assert AllDigits(typed);
    var tail := typed[1..];
    var init := tail[..|tail| - 1];
    assert tail == init + [d];
    DigitsValueAppend(init, d);
    LastDigit(DigitsValue(tail), DigitsValue(init), DigitValue(d));
  }

  lemma LastDigit(n: int, x: nat, r: nat)
    requires r < 10 && n == x * 10 + r
    ensures n % 10 == r
  {
  }

  /** The month field: 1 showing and 2 typed gives 12; 12 showing and 5 typed gives 5; 13 from empty is refused. */
  lemma MonthTypingExample()
    ensures ChangeTarget(Some(1), "012", 1, 12, 2) == Some(12)
    ensures ChangeTarget(Some(12), "125", 1, 12, 2) == Some(5)
    ensures ChangeTarget(None, "13", 1, 12, 2) == None
  {
    assert AllDigits("012") && AllDigits("125") && AllDigits("13");
    assert "012"[3 - 2..] == "12" && "125"[3 - 2..] == "25";
    assert DigitsValue("12") == 12 by { assert "12"[..1] == "1"; assert "1"[..0] == ""; }
    assert DigitsValue("25") == 25 by { assert "25"[..1] == "2"; assert "2"[..0] == ""; }
    assert DigitsValue("13") == 13 by { assert "13"[..1] == "1"; assert "1"[..0] == ""; }
    ChangeWithValue(1, "012", 1, 12, 2);
    ChangeWithValue(12, "125", 1, 12, 2);
    ChangeFromEmpty("13", 1, 12, 2);
  }

  /** The displayed text of a number that fits the pattern is exactly as wide as the pattern and reads back to the number. */
  lemma DisplayRoundTrip(v: nat, pattern: string)
    requires 1 <= |pattern| && v < Utils.Pow10(|pattern|)
    ensures |Display(Some(v), pattern)| == |pattern|
    ensures ParseInt(Display(Some(v), pattern)) == Some(v)
  {
    Utils.ZeroPadRoundTrip(v, |pattern|);
  }
}
