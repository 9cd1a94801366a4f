# Date and time widgets and algorithm exam pages, modelled in Dafny

This project models the core of a small React application. Its date and time
widgets are:

- a two-digit number field, `DateTimeNumberInput`;
- the segmented input `DateTimeInput`;
- `DateInput`, driven by a pattern such as `YYYY-MM-DD`;
- `TimeInput`, which reads and writes `HH:mm` strings;
- the pop-up pickers `TimePicker` and `DatePicker`.

Its three "exam" pages hold classic algorithms over arrays and strings, linked
lists and binary trees.

Each source file becomes one module:

- Pure helpers are functions with lemmas about them.
- A component whose handlers change state becomes a class. Its fields are the
  component's state, and its methods are the handlers. A value handed to an
  `onChange` callback is an explicit `notice` out-parameter.
- The algorithms that loop over arrays, queues and linked nodes are methods
  with loop invariants. Each is proved against a specification function,
  whose own properties are lemmas: round trips, uniqueness of results,
  optimality and permutation.

Two helper modules stand in for what the source borrows from its platform:

- `Text` models the JavaScript built-ins the code calls: `parseInt` with and
  without a radix, `String(n)`, `padStart`, `split`, `join`, `replace(/\D/g, "")`
  and `%` with its truncating sign.
- `Gregorian` models the calendar arithmetic that dayjs and `Date` provide:
  month lengths, weekdays, adding days and months, and day numbers.

Modules, by source file:

| module | source file |
|---|---|
| `Text` | JavaScript built-ins |
| `Utils` | `src/lib/utils.ts` |
| `Gregorian` | dayjs / `Date` calendar arithmetic |
| `DateTimeNumberInput` | `src/components/ui/date-time/date-time-number-input.tsx` |
| `DateTimeInput` | `src/components/ui/date-time-input.tsx` |
| `DateInput` | `src/components/ui/date-time/date-input.tsx` |
| `TimeInput` | `src/components/ui/date-time/time-input.tsx` |
| `TimePicker` | `src/components/ui/date-time/time-picker.tsx` |
| `DatePicker` | `src/components/ui/date-time/date-picker.tsx` |
| `ArrayStringExam` | `src/pages/array-string-exam.tsx` |
| `LinkedListExam` | `src/pages/linked-list-exam.tsx` |
| `TreeGraphExam` | `src/pages/tree-graph-exam.tsx` |

## Model

| member | source | states |
|---|---|---|
| Text.JsRem | src/lib/utils.ts:41-42 | JavaScript's `%`, truncating toward zero: `a - r` is a multiple of `b`, `r` lies strictly inside (-b, b), and `r` is never positive for a negative dividend; together these fix `r`, and for a non-negative dividend it is the Euclidean remainder |
| Text.NatToString | src/lib/utils.ts:33 | `String(n)` of a non-negative integer is a non-empty digit string with no leading zero |
| Text.DigitsOnly | src/components/ui/date-time/date-time-number-input.tsx:64 | `replace(/\D/g, "")` yields only digits, never lengthens the string, contains every digit of the input, and is the identity on a digit string |
| Text.DigitsOnlySingle | src/components/ui/date-time/date-time-number-input.tsx:64 | one character is kept exactly when it is a digit |
| Text.DigitsOnlyAppend | src/components/ui/date-time/date-time-number-input.tsx:64 | the filter of a concatenation is the concatenation of the filters, so with DigitsOnlySingle every digit is kept, in order, and nothing else |
| Text.TrimStart | src/components/ui/date-time/date-input.tsx:83 | what `parseInt` skips is a prefix made only of white space, and what is left is the rest of the input, not starting with white space |
| Text.DigitPrefixLength | src/components/ui/date-time/date-input.tsx:83 | the digit run `parseInt` reads is the longest digit prefix: all digits, followed by a non-digit or the end |
| Text.ParseInt | src/components/ui/date-time/date-time-number-input.tsx:74 | `parseInt(s, 10)` of the empty string is NaN; digit strings and non-numeric strings are covered by the lemmas below |
| Text.HexPrefixLength | src/components/ui/date-time/date-input.tsx:83 | the hexadecimal run after `0x` is the longest hexadecimal-digit prefix |
| Text.ParseIntNoRadix | src/components/ui/date-time/date-input.tsx:83 | `Number.parseInt(s)` without a radix: NaN on the empty string; see the lemmas below for the decimal and `0x` branches |
| Text.PadStartZero | src/lib/utils.ts:33 | `padStart(w, "0")` leaves a long enough string alone, otherwise gives exactly w characters: zeros, then the original string as a suffix |
| Text.Reverse | src/pages/array-string-exam.tsx:190 | `reverse()` gives the elements in the opposite order, element by element |
| Text.Split | src/components/ui/date-time/date-input.tsx:77-78 | `split(c)` gives at least one part and no part contains the separator |
| Text.ParseIntDigits | src/components/ui/date-time/date-time-number-input.tsx:74 | `parseInt` reads back any non-empty digit string as its decimal value, leading zeros included |
| Text.NoRadixDecimal | src/components/ui/date-time/time-input.tsx:53 | without a radix, a decimal digit string is read exactly as `parseInt(s, 10)` reads it |
| Text.NoRadixDigits | src/components/ui/date-time/time-input.tsx:53 | without a radix, a decimal digit string reads back as its value |
| Text.NoRadixNonNumeric | src/components/ui/date-time/date-input.tsx:83-86 | without a radix, a string starting with a letter (not a digit, sign or space) is NaN, so the field becomes undefined |
| Text.HexPrefixRead | src/components/ui/date-time/date-input.tsx:83 | `Number.parseInt("0x1F")` is 31, while `parseInt("0x1F", 10)` is 0: the missing radix switches to hexadecimal |
| Text.HexBranch | src/components/ui/date-time/date-input.tsx:83 | a string starting `0x` is read as the hexadecimal digits after the prefix, NaN when there are none |
| Text.ParseIntNonNumeric | src/components/ui/date-time/date-time-number-input.tsx:81 | `parseInt(s, 10)` of a string starting with a letter is NaN |
| Utils.ZeroPad | src/lib/utils.ts:32-34 | `zeroPad` of a non-negative number is a digit string |
| Utils.ZeroPadShape | src/lib/utils.ts:32-34 | `zeroPad(n, w)` is exactly `w - len` zeros followed by the decimal digits of n, never cut |
| Utils.ZeroPadWidth | src/lib/utils.ts:32-34 | padding a number below 10^w to width w gives exactly w digits |
| Utils.ZeroPadRoundTrip | src/lib/utils.ts:32-34 | a number below 10^w padded to width w has length w and is read back as the number by `parseInt`, with or without a radix |
| Utils.ZeroPadValue | src/lib/utils.ts:32-34 | a number below 10^w padded to width w is w digits whose decimal value is the number |
| Utils.ToOrdinal | src/lib/utils.ts:36-43 | `toOrdinal` is "" exactly when the argument is omitted |
| Utils.ToOrdinalEnglish | src/lib/utils.ts:36-43 | for every non-negative n the table lookup gives n followed by the English suffix: "th" for 11-13 modulo 100, else "st", "nd", "rd" for last digits 1-3 and "th" otherwise |
| Utils.SuffixBelowHundred | src/lib/utils.ts:40-42 | for 0 <= value < 100, `suffixes[(value - 20) % 10] \|\| suffixes[value] \|\| suffixes[0]` is the English suffix |
| Utils.DaysInMonth | src/lib/utils.ts:45-51 | `daysInMonth` is always 28..31, and 31 when the month or the year is omitted |
| Utils.DaysInMonthGregorian | src/lib/utils.ts:45-51 | for a month 1..12 and a year >= 1, `new Date(year, month, 0).getDate()` is the Gregorian length of that month |
| Utils.FebruaryLeap | src/lib/utils.ts:45-51 | February has 29 days exactly in Gregorian leap years |
| Gregorian.MonthLength | src/components/ui/date-time/date-picker.tsx:135 | `daysInMonth()` is 28..31; February has 29 days exactly in leap years; the other 30-day months are April, June, September and November |
| Gregorian.Weekday | src/components/ui/date-time/date-picker.tsx:132 | `day()` is a weekday 0 (Sunday) to 6 (Saturday) |
| Gregorian.AddDays | src/components/ui/date-time/date-picker.tsx:272 | `add(n, "day")` of a real date is a real date |
| Gregorian.AddMonths | src/components/ui/date-time/date-picker.tsx:173 | `add(n, "month")` moves year*12+month by exactly n and keeps the day, clamped to the target month's length |
| Gregorian.SetYear | src/components/ui/date-time/date-picker.tsx:209 | `set("year", y)` replaces the year, keeps the month, and keeps the day except that 29 February becomes 28 February outside leap years |
| Gregorian.YearLength | src/components/ui/date-time/date-picker.tsx:132 | consecutive years start 366 days apart after a leap year and 365 otherwise |
| Gregorian.NextDayNumber | src/components/ui/date-time/date-picker.tsx:288 | one day forward adds one to the day count, across month and year ends |
| Gregorian.PrevDayIsInverse | src/components/ui/date-time/date-picker.tsx:272-288 | one day back and one day forward are inverse, both ways |
| Gregorian.NextDayWeekday | src/components/ui/date-time/date-picker.tsx:132 | the next day is the next weekday, Saturday wrapping to Sunday |
| Gregorian.AddDaysWeekday | src/components/ui/date-time/date-picker.tsx:304-320 | moving n days moves the weekday by n modulo 7, so a week later is the same weekday |
| Gregorian.NewYear2024IsMonday | src/components/ui/date-time/date-picker.tsx:132 | the weekday numbering is anchored: 1 January 2024 is a Monday |
| Gregorian.AddMonthsKeepsDay | src/components/ui/date-time/date-picker.tsx:173 | moving by months keeps every day that exists in all months (1..28) |
| Gregorian.AddMonthsBackAndForth | src/components/ui/date-time/date-picker.tsx:171-193 | `nextMonth` then `prevMonth`, or the reverse, returns to the same date for days 1..28 |
| DateTimeNumberInput.SliceLast | src/components/ui/date-time/date-time-number-input.tsx:80 | `slice(0 - k)` keeps a suffix of the input: the last k characters, or the whole string when k is 0 or at least its length |
| DateTimeNumberInput.Display | src/components/ui/date-time/date-time-number-input.tsx:37-40 | an empty field shows the pattern; a non-negative value shows a digit string at least as wide as the pattern |
| DateTimeNumberInput.TabIndex | src/components/ui/date-time/date-time-number-input.tsx:26 | a disabled field is out of the tab order (-1); otherwise the given `tabIndex` is used, and without one the prop's default -1 |
| DateTimeNumberInput.NumberField.constructor | src/components/ui/date-time/date-time-number-input.tsx:19-36 | the props are kept and the internal value starts as the `value` prop |
| DateTimeNumberInput.NumberField.ReceiveValue | src/components/ui/date-time/date-time-number-input.tsx:43-45 | a new `value` prop is copied into the internal value |
| DateTimeNumberInput.NumberField.UpdateValue | src/components/ui/date-time/date-time-number-input.tsx:54-60 | nothing happens while disabled or when the value is unchanged; otherwise the internal value becomes v and `onChange(v)` is called once |
| DateTimeNumberInput.NumberField.HandleChange | src/components/ui/date-time/date-time-number-input.tsx:62-96 | typing settles the internal value on the change target (digits of the text, read whole when empty, else their last `pattern.length`, falling back to the last digit when above `max`, else the current value) and notifies only a real change |
| DateTimeNumberInput.NumberField.HandleKeyDown | src/components/ui/date-time/date-time-number-input.tsx:98-120 | while disabled nothing happens; Backspace/Delete clear the value; ArrowUp/ArrowDown report the prop value plus/minus one (from 0 when empty) only within `max`/`min`, without changing the internal value; every other key is left alone |
| DateTimeNumberInput.ChangeTargetAllowed | src/components/ui/date-time/date-time-number-input.tsx:62-96 | whatever is typed, the field settles on nothing, a number within min..max, or the current value |
| DateTimeNumberInput.ChangeFromEmpty | src/components/ui/date-time/date-time-number-input.tsx:72-78 | from an empty field, a typed digit string is taken when its value is within bounds, and otherwise the field stays empty |
| DateTimeNumberInput.ChangeWithValue | src/components/ui/date-time/date-time-number-input.tsx:79-95 | with a value, the last `pattern.length` digits are taken when in range, else their last digit when the number is above `max` and that digit is in range |
| DateTimeNumberInput.ChangeAppendDigit | src/components/ui/date-time/date-time-number-input.tsx:79-95 | typing one digit after the shown zero-padded value keeps the last pattern-width digits when in range; above `max` the new digit alone is taken when in range; otherwise the value stays |
| DateTimeNumberInput.MonthTypingExample | src/components/ui/date-time/date-time-number-input.tsx:71-95 | in a month field, "01" followed by 2 gives 12, "12" followed by 5 gives 5, and 13 typed into an empty field is refused |
| DateTimeNumberInput.DisplayRoundTrip | src/components/ui/date-time/date-time-number-input.tsx:37-40 | a value that fits the pattern is shown exactly as wide as the pattern and `parseInt` reads it back |
| DateTimeInput.StrValue | src/components/ui/date-time-input.tsx:134 | an empty segment shows its pattern |
| DateTimeInput.StrValueRoundTrip | src/components/ui/date-time-input.tsx:134 | a value below 10^width is shown as exactly pattern-width digits that `parseInt` reads back as the value |
| DateTimeInput.NumberInput.constructor | src/components/ui/date-time-input.tsx:122-133 | the metadata is `getDateMetadata(type, date)` and the starting value is `date.get(type)` |
| DateTimeInput.NumberInput.OnBeforeInput | src/components/ui/date-time-input.tsx:163-198 | non-digit input leaves the value; empty input (Backspace/Delete) clears it; digits roll into the value: appended when within bounds, else alone when within bounds, else unchanged |
| DateTimeInput.NumberInput.OnPaste | src/components/ui/date-time-input.tsx:199-225 | the pasted text's digits, cut to the pattern's width, roll in as typed digits do; no digits leave the value |
| DateTimeInput.NumberInput.OnKeyDown | src/components/ui/date-time-input.tsx:226-260 | navigation keys and Ctrl/Meta chords do nothing; Backspace/Delete clear; ArrowUp steps up (from `min` when empty) and ArrowDown steps down (from 0 when empty) only within bounds; any other single non-digit character is cancelled |
| DateTimeInput.MetadataBoundsOrdered | src/components/ui/date-time-input.tsx:34-110 | every field's minimum is at most its maximum |
| DateTimeInput.MetadataValueInRange | src/components/ui/date-time-input.tsx:34-98 | for a real instant, the month, year, hour, minute and second fields hold a value within their own bounds |
| DateTimeInput.DayMaxIsPrecedingMonth | src/components/ui/date-time-input.tsx:36-53 | the day field's maximum is the length of the month BEFORE the date's month (31 for January), because the 0-based month is passed to `daysInMonth` |
| DateTimeInput.DayMaxExcludesMarch31 | src/components/ui/date-time-input.tsx:53 | for 31 March 2023 the day field offers 1..28, so its own value 31 is out of bounds |
| DateTimeInput.DayMaxCorrected | src/components/ui/date-time-input.tsx:53 | with no date the maximum is 31, as in `daysInMonth` |
| DateTimeInput.DayMaxCorrectedFits | src/components/ui/date-time-input.tsx:53 | with the 1-based month, the maximum is the date's own month length and every valid day lies within 1..max |
| DateTimeInput.InitialValueMismatch | src/components/ui/date-time-input.tsx:45 | the starting value `date.get(type)` differs from the metadata value: 12 May 2024 starts at month 4 (0-based) and day 0 (the weekday, a Sunday) |
| DateTimeInput.RollAllowed | src/components/ui/date-time-input.tsx:178-196 | rolling a digit string in settles on the current value or a number within the bounds |
| DateTimeInput.RollDigits | src/components/ui/date-time-input.tsx:184-195 | with a value, the digits are appended when the result is within bounds, else taken alone when within bounds, else the value stays |
| DateTimeInput.MayDayMetadata | src/components/ui/date-time-input.tsx:49-58 | the day field of 12 May 2024 has bounds 1..30 (April's length), value 12 and pattern "DD" |
| DateTimeInput.RollingTwentyFive | src/components/ui/date-time-input.tsx:178-189 | in that field, typing 2 then 5 gives 25 |
| DateTimeInput.RollingNine | src/components/ui/date-time-input.tsx:184-195 | at 25, typing 9 gives 9 (259 is out of bounds); at 9, typing 9 keeps 9 (99 is out of bounds) |
| DateInput.TokenText | src/components/ui/date-time/date-input.tsx:8 | each placeholder token is a run of one letter (Y, M or D), at least two long |
| DateInput.LeadingToken | src/components/ui/date-time/date-input.tsx:8 | a token found at the start of a string is a prefix of it |
| DateInput.AfterToken | src/components/ui/date-time/date-input.tsx:8 | the leading token and the rest put back together give the string |
| DateInput.MatchPattern | src/components/ui/date-time/date-input.tsx:8 | a regex match gives back exactly the pattern it was read from, with `-` or `/` as the separator |
| DateInput.MatchPatternComplete | src/components/ui/date-time/date-input.tsx:8 | every token-separator-token-separator-token string matches, with exactly those parts, so the regex accepts exactly these strings |
| DateInput.ValidRender | src/components/ui/date-time/date-input.tsx:105-109 | three distinct tokens joined by one separator form a valid pattern |
| DateInput.DefaultPatternValid | src/components/ui/date-time/date-input.tsx:49 | the default pattern `YYYY-MM-DD` is valid |
| DateInput.DayFirstPatternValid | src/components/ui/date-time/date-input.tsx:105-109 | `DD/MM/YYYY` is valid |
| DateInput.TwoLetterYearInvalid | src/components/ui/date-time/date-input.tsx:8 | `YY-MM-DD` does not match the regex, so it is not valid |
| DateInput.RepeatedTokenInvalid | src/components/ui/date-time/date-input.tsx:107-109 | `YYYY-MM-YYYY` matches the regex but fails the three-distinct-parts check |
| DateInput.MixedSeparatorsInvalid | src/components/ui/date-time/date-input.tsx:8 | the back-reference `\2` rejects `YYYY-MM/DD` |
| DateInput.PatternSplits | src/components/ui/date-time/date-input.tsx:76-77 | splitting a matched pattern on its separator gives its three token texts |
| DateInput.Decompose | src/components/ui/date-time/date-input.tsx:73-89 | `getYearMonthDayFromStringDate` gives nothing for an unmatched pattern, otherwise each token's number from the value part at that token's position (the last occurrence wins), NaN as undefined |
| DateInput.AssignByPosition | src/components/ui/date-time/date-input.tsx:82-87 | after the `forEach`, each variable holds the number at the last position of its token, or undefined |
| DateInput.LoopFields | src/components/ui/date-time/date-input.tsx:77-88 | for a matched pattern the loop's three variables are the positional reading of the value |
| DateInput.SegmentFor | src/components/ui/date-time/date-input.tsx:112-141 | a segment carries its token, the state's value for it and the minimum 1 |
| DateInput.DaySegmentBound | src/components/ui/date-time/date-input.tsx:136 | for a real month and year, the day segment's maximum is the Gregorian length of that (1-based) month |
| DateInput.CellParses | src/components/ui/date-time/date-input.tsx:83-175 | a serialised cell holds no separator and reads back, without a radix, as its segment's value (a placeholder reads as undefined) |
| DateInput.PlaceholderParses | src/components/ui/date-time/date-input.tsx:83 | a placeholder `YYYY`, `MM` or `DD` reads back as NaN, i.e. undefined |
| DateInput.DecomposeSerialize | src/components/ui/date-time/date-input.tsx:73-179 | for a valid pattern, segment values that fit their placeholders (not all empty) survive serialising and decomposing |
| DateInput.SerializeDecompose | src/components/ui/date-time/date-input.tsx:73-179 | such a string is reproduced by decomposing it and serialising again |
| DateInput.RoundTripWith | src/components/ui/date-time/date-input.tsx:73-179 | the round trip for one match with three distinct tokens |
| DateInput.CellsSplit | src/components/ui/date-time/date-input.tsx:78-176 | the joined cells split back into the cells, each reading back as its segment's value |
| DateInput.SerializeEmpty | src/components/ui/date-time/date-input.tsx:170-176 | three empty segments, or a pattern the regex rejects, serialise to "" |
| DateInput.DateInputState.constructor | src/components/ui/date-time/date-input.tsx:55-71 | after mounting and the value effect, the state is the decomposed value; an empty value or pattern, or an unmatched pattern, leaves all three undefined |
| DateInput.DateInputState.ReceiveValue | src/components/ui/date-time/date-input.tsx:64-71 | a new non-empty value replaces the state by its decomposition (all undefined when the pattern does not match); an empty value changes nothing |
| DateInput.DateInputState.HandleDateChange | src/components/ui/date-time/date-input.tsx:147-164 | the state becomes the edited segment with the day cut to the new month's length; `onChange` is called only while the hidden input is rendered (valid pattern), with the string of the state BEFORE the change |
| DateInput.ApplyDateChangeProperties | src/components/ui/date-time/date-input.tsx:147-157 | after any change the day fits its month, the edited segment takes the new value, the others keep theirs, and the day only ever shrinks |
| DateInput.ApplyDateChangeKeepsFittingDay | src/components/ui/date-time/date-input.tsx:151-154 | a day that fits the new month is not touched |
| DateInput.ApplyDateChangeIdempotent | src/components/ui/date-time/date-input.tsx:147-157 | applying the same change twice is applying it once |
| DateInput.StaleDateNotice | src/components/ui/date-time/date-input.tsx:159-162 | from 31 January 2023, setting the month to 2 gives 28 February 2023, yet the string sent is that of 31 January, which decomposes to the old state, not to the new one |
| DateInput.NotifiedAfterChangeDecomposes | src/components/ui/date-time/date-input.tsx:147-179 | the string taken after the change always decomposes to the new state |
| TimeInput.Bounds | src/components/ui/date-time/time-input.tsx:123-139 | both segments start at 0 and end below 100, so any value within them fits a two-digit cell |
| TimeInput.IsValidTimeExamples | src/components/ui/date-time/time-input.tsx:7-10 | `isValidTime` accepts 00:00, 09:15, 23:59, 12:34 and rejects 24:00, 12:60, 99:99, ab:cd, "12:", ":34" and "" |
| TimeInput.PipeAccepted | src/components/ui/date-time/time-input.tsx:8 | the bracket class `[0\|1]` lets "\|5:30" through although it is no time of day |
| TimeInput.CorrectedIsTimeOfDay | src/components/ui/date-time/time-input.tsx:8 | with `[01]` the regex accepts exactly the HH:mm strings of hour 0..23 and minute 0..59 |
| TimeInput.TwoDigitCell | src/components/ui/date-time/time-input.tsx:53-65 | a two-digit cell is read back by `Number.parseInt` and re-padded to itself, and holds no colon |
| TimeInput.ParseTimeRoundTrip | src/components/ui/date-time/time-input.tsx:51-65 | a valid time starting with a digit is parsed into its hour and minute and serialised back unchanged |
| TimeInput.PipeRoundTrip | src/components/ui/date-time/time-input.tsx:51-65 | a valid time starting with "\|" loses its hour: it comes back as "HH" followed by its own ":mm" |
| TimeInput.CellRoundTrip | src/components/ui/date-time/time-input.tsx:53-65 | a present value below 100 pads to two digits that read back; an absent one shows its placeholder, which reads as undefined |
| TimeInput.TimeStrRoundTrip | src/components/ui/date-time/time-input.tsx:51-65 | hour and minute below 100 (not both empty) survive serialising and parsing |
| TimeInput.TimeInputState.constructor | src/components/ui/date-time/time-input.tsx:42-60 | after mounting and the sync effect, hour and minute are the parsed value (both undefined for an empty value) |
| TimeInput.TimeInputState.ReceiveValue | src/components/ui/date-time/time-input.tsx:51-60 | a new value replaces hour and minute by its parse |
| TimeInput.TimeInputState.HandleTimeChange | src/components/ui/date-time/time-input.tsx:67-78 | only the edited field changes, and `onChange` is always called, with the string of the time BEFORE the change |
| TimeInput.ApplyTimeChangeFrame | src/components/ui/date-time/time-input.tsx:67-71 | a change sets the edited field and leaves the other as it was, with no clamping |
| TimeInput.StaleTimeNotice | src/components/ui/date-time/time-input.tsx:73-77 | whenever the edited field really changes, the reported string differs from the string of the new state |
| TimeInput.NotifiedAfterTimeChangeParses | src/components/ui/date-time/time-input.tsx:67-78 | the string taken after the change parses back to the new state |
| TimePicker.Cells | src/components/ui/date-time/time-picker.tsx:10-11 | a column of n entries has n cells (see the lemmas below for their contents) |
| TimePicker.CellValue | src/components/ui/date-time/time-picker.tsx:10-11 | cell i of a column shows i in two digits, which `parseInt` reads back |
| TimePicker.CellsDistinct | src/components/ui/date-time/time-picker.tsx:10-28 | the cells of a column are pairwise distinct, so the text-to-button map has one entry per cell |
| TimePicker.CellsComplete | src/components/ui/date-time/time-picker.tsx:10-11 | every two-digit string below n is a cell, at the index of its value |
| TimePicker.IsCellMembership | src/components/ui/date-time/time-picker.tsx:170-187 | the cell-ref lookup by text finds exactly the two-digit strings below the column's length |
| TimePicker.HomeCell | src/components/ui/date-time/time-picker.tsx:190-199 | Home's target "00" is the first cell of either column |
| TimePicker.EndHourCell | src/components/ui/date-time/time-picker.tsx:203-204 | End's target "23" is the last hour cell |
| TimePicker.EndMinuteCell | src/components/ui/date-time/time-picker.tsx:206-207 | End's target "59" is the last minute cell |
| TimePicker.SplitTime | src/components/ui/date-time/time-picker.tsx:75 | destructuring `split(":")` always yields a first part |
| TimePicker.TabTrap | src/components/ui/date-time/time-picker.tsx:147-163 | focus moves (default prevented) exactly when Shift+Tab is on the first focusable or Tab on the last, and only to one of the focusables |
| TimePicker.TabTrapCycles | src/components/ui/date-time/time-picker.tsx:155-161 | the trap wraps first-to-last and last-to-first, and Shift+Tab undoes a wrapping Tab |
| TimePicker.ArrowOnCell | src/components/ui/date-time/time-picker.tsx:165-189 | an arrow key on cell i lands on the cell whose index is the JavaScript-remainder step from i |
| TimePicker.ArrowWraps | src/components/ui/date-time/time-picker.tsx:165-189 | ArrowDown moves cell i to i+1 and ArrowUp to i-1, wrapping at both ends of the column |
| TimePicker.ArrowInverse | src/components/ui/date-time/time-picker.tsx:165-189 | both arrows stay in the column, and each undoes the other |
| TimePicker.NextPrev | src/components/ui/date-time/time-picker.tsx:168-181 | one step forward and one back around a column of n return to the start |
| TimePicker.SplitValidTime | src/components/ui/date-time/time-picker.tsx:75 | a valid time splits into its two two-character halves, which is what Cancel restores |
| TimePicker.RestoreCompose | src/components/ui/date-time/time-picker.tsx:122-135 | Cancel's restore and OK's composition are inverse: a valid time survives both |
| TimePicker.ComposeRestore | src/components/ui/date-time/time-picker.tsx:122-135 | cells whose composition is valid are exactly what Cancel restores from it |
| TimePicker.RestoreInvalid | src/components/ui/date-time/time-picker.tsx:136-139 | an invalid selected time clears both cells, so OK right after such a Cancel commits nothing |
| TimePicker.TimePickerState.constructor | src/components/ui/date-time/time-picker.tsx:31-81 | the picker starts closed; a valid `value` becomes the selected time and fills the cells, anything else leaves "HH:mm" and empty cells |
| TimePicker.TimePickerState.Toggle | src/components/ui/date-time/time-picker.tsx:96 | the clock button flips `showTimePicker` and changes nothing else |
| TimePicker.TimePickerState.Hide | src/components/ui/date-time/time-picker.tsx:98-106 | only a shown picker starts hiding and schedules one close timer; a hidden one is left alone |
| TimePicker.TimePickerState.HideTimerFires | src/components/ui/date-time/time-picker.tsx:101-104 | a close timer firing closes the picker and ends the hiding, so the drop-down is no longer rendered |
| TimePicker.TimePickerState.SelectTime | src/components/ui/date-time/time-picker.tsx:121-128 | a valid composed time different from the selected one is committed and the picker hides, and `onChange` receives the PREVIOUS selected time; otherwise nothing changes |
| TimePicker.TimePickerState.OkClick | src/components/ui/date-time/time-picker.tsx:353 | while either cell is unset or empty the button does nothing; otherwise it is `handleSelectTime`, so any notice reports a string other than the new, valid selected time |
| TimePicker.TimePickerState.CancelClick | src/components/ui/date-time/time-picker.tsx:130-140 | the picker hides (if shown) and the cells are put back to what the selected time says |
| TimePicker.TimePickerState.ClickHour | src/components/ui/date-time/time-picker.tsx:304 | a click on an hour cell sets the hour only |
| TimePicker.TimePickerState.ClickMinute | src/components/ui/date-time/time-picker.tsx:342 | a click on a minute cell sets the minute only |
| TimePicker.TimePickerState.InputChange | src/components/ui/date-time/time-picker.tsx:240-245 | typing in the time input sets the cells to the typed halves and the selected time to the typed string |
| TimePicker.TimePickerState.KeyDown | src/components/ui/date-time/time-picker.tsx:142-229 | nothing without the drop-down; arrows step the focused cell's column with wrap-around and move the focus to the new cell; Home/End select the first/last cell; Space selects the focused cell; Tab traps focus; Enter is `handleSelectTime`; Escape hides; only Enter can change the selected time and only Enter or Escape start hiding |
| TimePicker.TimePickerState.MoveFocused | src/components/ui/date-time/time-picker.tsx:165-189 | the focused column takes the arrow's target and the focus follows when that cell exists; nothing else changes |
| TimePicker.TimePickerState.Moved | src/components/ui/date-time/time-picker.tsx:168-174 | the arrow's target text for the focused cell, and the new focus: that cell if it exists, else the old focus |
| DatePicker.YearGrid | src/components/ui/date-time/date-picker.tsx:124 | the year grid has 50 rows of 4 years |
| DatePicker.YearGridCovers | src/components/ui/date-time/date-picker.tsx:124 | every year from 1900 to 2099 is in the grid, at row (y - 1900) / 4 and column (y - 1900) % 4 |
| DatePicker.YearGridDistinct | src/components/ui/date-time/date-picker.tsx:124 | the grid holds only years 1900..2099, each of them once |
| DatePicker.Lead | src/components/ui/date-time/date-picker.tsx:132 | fewer than 7 leading cells |
| DatePicker.LeadingDays | src/components/ui/date-time/date-picker.tsx:134-147 | as many leading cells as the weekday of the 1st |
| DatePicker.MonthDays | src/components/ui/date-time/date-picker.tsx:150-153 | one cell per day of the displayed month |
| DatePicker.TrailingCount | src/components/ui/date-time/date-picker.tsx:156 | fewer than 7 trailing cells, and exactly enough to complete the last week |
| DatePicker.TrailingDays | src/components/ui/date-time/date-picker.tsx:156-160 | as many trailing cells as asked for |
| DatePicker.Chunks | src/components/ui/date-time/date-picker.tsx:163-166 | cutting into chunks of 7 gives ceil(len / 7) weeks |
| DatePicker.BuildDays | src/components/ui/date-time/date-picker.tsx:127-160 | the three loops build exactly the month grid: the previous month's tail, the month, the next month's head |
| DatePicker.ChunkWeeks | src/components/ui/date-time/date-picker.tsx:162-166 | the chunking loop gives exactly the chunks of 7 |
| DatePicker.UpdateDays | src/components/ui/date-time/date-picker.tsx:127-168 | `updateDays(date)` sets the weeks of the displayed month's grid |
| DatePicker.GridShape | src/components/ui/date-time/date-picker.tsx:127-168 | the grid is four to six full weeks: its length is a multiple of 7 between 28 and 42 |
| DatePicker.ChunksAreWeeks | src/components/ui/date-time/date-picker.tsx:163-166 | a multiple-of-7 list is cut into full weeks that keep the order |
| DatePicker.GridCell | src/components/ui/date-time/date-picker.tsx:140-160 | every cell holds a real date, shows that date's day, and is flagged as another month exactly when it is one |
| DatePicker.GridConsecutive | src/components/ui/date-time/date-picker.tsx:140-160 | reading the grid left to right, top to bottom walks through consecutive days |
| DatePicker.GridFirst | src/components/ui/date-time/date-picker.tsx:132-150 | the 1st of the month sits right after the leading cells |
| DatePicker.GridWeekdays | src/components/ui/date-time/date-picker.tsx:132 | every cell sits in the column of its own weekday (Sunday first), as the header row says |
| DatePicker.GridHasMonth | src/components/ui/date-time/date-picker.tsx:150-153 | every date of the displayed month is in the grid, not flagged, at index lead + day - 1 |
| DatePicker.MonthAfter | src/components/ui/date-time/date-picker.tsx:134-158 | the day after the previous month's last day is the displayed month's 1st |
| DatePicker.DayKeyTarget | src/components/ui/date-time/date-picker.tsx:269-331 | a date-cell arrow key gives a real date: the focused date moved by the key's days when that stays in the displayed month, else the focused date |
| DatePicker.DayKeyUndo | src/components/ui/date-time/date-picker.tsx:269-331 | from a date of the displayed month, an arrow key stays in the month, and a move that happened is undone by the opposite key |
| DatePicker.YearStepInGrid | src/components/ui/date-time/date-picker.tsx:276-330 | year-cell arrows keep the focused year within 1900..2099, and an unclamped move is undone by the opposite key |
| DatePicker.MonthPagingRoundTrip | src/components/ui/date-time/date-picker.tsx:171-193 | `nextMonth` then `prevMonth`, or the reverse, shows the same month again, whatever the day |
| DatePicker.MonthIndexInjective | src/components/ui/date-time/date-picker.tsx:176-188 | two dates with the same year*12+month are in the same month |
| DatePicker.DatePickerState.constructor | src/components/ui/date-time/date-picker.tsx:50-104 | the selection is the value, nothing is focused, the pop-up is closed, and the displayed date is the value when dayjs can read it, else today, with its grid built |
| DatePicker.DatePickerState.Hide | src/components/ui/date-time/date-picker.tsx:113-121 | only a shown calendar starts hiding and schedules one close timer; nothing else changes |
| DatePicker.DatePickerState.HideTimerFires | src/components/ui/date-time/date-picker.tsx:116-119 | a close timer firing closes the calendar and ends the hiding |
| DatePicker.DatePickerState.ClickOutside | src/components/ui/date-time/date-picker.tsx:85-99 | a mouse-down outside hides the calendar (if shown) and leaves the year view |
| DatePicker.DatePickerState.Toggle | src/components/ui/date-time/date-picker.tsx:219-238 | opening with an exact selection displays and focuses it; opening otherwise focuses the displayed date; closing leaves the year view; the selection never changes |
| DatePicker.DatePickerState.ToggleYears | src/components/ui/date-time/date-picker.tsx:393 | the chevron flips the year view and changes nothing else |
| DatePicker.DatePickerState.PageMonth | src/components/ui/date-time/date-picker.tsx:171-193 | the displayed date moves one month; the focus goes to the selection when it lies in the new month, else to the new displayed date, so it is always in the displayed month |
| DatePicker.DatePickerState.SelectYear | src/components/ui/date-time/date-picker.tsx:208-212 | the displayed date takes the year, keeping its month, and the day grid comes back |
| DatePicker.DatePickerState.SelectDate | src/components/ui/date-time/date-picker.tsx:214-217 | the picked date becomes the exact selection, as it is for a pattern dayjs reads back, and the calendar hides (if shown) |
| DatePicker.DatePickerState.ChangeEffect | src/components/ui/date-time/date-picker.tsx:107-111 | `onChange` is called exactly when a selection is set, with that selection |
| DatePicker.DatePickerState.InputChange | src/components/ui/date-time/date-picker.tsx:356-358 | typing in the date input replaces the selection and nothing else |
| DatePicker.DatePickerState.KeyDown | src/components/ui/date-time/date-picker.tsx:242-345 | nothing before a date is focused or without the pop-up; Tab traps focus; arrows move the focused date within the month (date cell) or the focused year with clamping (year cell); Enter/Space on a date cell select the focused date and hide; Escape hides; other keys do nothing; only Enter/Space change the selection and only arrows change the focus |
| DatePicker.DatePickerState.ArrowKey | src/components/ui/date-time/date-picker.tsx:269-331 | a date cell moves the focused date (default prevented), a year cell the focused year; nothing else changes |
| ArrayStringExam.TwoSum | src/pages/array-string-exam.tsx:4-17 | every reported pair (a, b) has a < b and sums to the target, pairs come out in order of b, every position b that has an earlier partner with a value still in the map ends exactly one pair, and the partner is the latest index holding that value that did not itself end a pair |
| ArrayStringExam.TwoSumFindsValues | src/pages/array-string-exam.tsx:4-17 | every two positions summing to the target are found up to their values: some reported pair holds the same two values |
| ArrayStringExam.TwoSumOnes | src/pages/array-string-exam.tsx:10-14 | on [1, 1, 1] with target 2 the result is exactly [(0, 1), (0, 2)]: the middle 1 completes a pair and never enters the map |
| ArrayStringExam.NumberArray.constructor | src/pages/array-string-exam.tsx:211 | the array `threeSum` is given holds the caller's items |
| ArrayStringExam.WithFirst | src/pages/array-string-exam.tsx:217 | one triple per `twoSum` pair, in the same order |
| ArrayStringExam.ThreeSum | src/pages/array-string-exam.tsx:210-221 | with three items or fewer nothing is reported; otherwise the caller's array is cut to its first item and the triples are exactly `twoSum` over the rest with target `-arr[0]`, each prefixed by `arr[0]`; every reported triple sums to 0 |
| ArrayStringExam.ThreeSumMissesTriple | src/pages/array-string-exam.tsx:213-214 | on [1, 2, -3, 5, -7] the zero triple 2 + 5 - 7 is never reported |
| ArrayStringExam.ThreeSumAll | src/pages/array-string-exam.tsx:210-221 | every start position with `twoSum` over the items after it: every reported triple is a zero triple of positions i < a < b, and every zero triple of positions is reported, its last two values possibly swapped |
| ArrayStringExam.MaxProfit | src/pages/array-string-exam.tsx:20-32 | -1 for fewer than two prices; otherwise no later-minus-earlier difference exceeds the result, which is -1 or one of those differences |
| ArrayStringExam.AreaShrinks | src/pages/array-string-exam.tsx:128-132 | moving the lower end inwards never gives a larger container |
| ArrayStringExam.ContainerWithMostWater | src/pages/array-string-exam.tsx:120-135 | the result is 0 or the area of some pair; for non-negative heights no pair has a larger area |
| ArrayStringExam.WaterAt | src/pages/array-string-exam.tsx:223-252 | the water on a bar is never negative, and is 0 exactly when the bar is the highest on its left or on its right |
| ArrayStringExam.PrefixMax | src/pages/array-string-exam.tsx:226-235 | the running maximum from the left is at least the bar |
| ArrayStringExam.SuffixMax | src/pages/array-string-exam.tsx:227-241 | the running maximum from the right is at least the bar |
| ArrayStringExam.WaterFrom | src/pages/array-string-exam.tsx:231-250 | the as-written loop never counts a negative amount |
| ArrayStringExam.TrappedWater | src/pages/array-string-exam.tsx:224-252 | `trappedWater` always stops, never goes negative and gives 0 for three bars or fewer |
| ArrayStringExam.TrappedWaterOvercounts | src/pages/array-string-exam.tsx:231-250 | on [2, 0, 1, 0, 2] the code reports 7 while 5 units are trapped |
| ArrayStringExam.TrappedWaterCorrected | src/pages/array-string-exam.tsx:223-252 | the two-pointer scan that moves the side with the lower running maximum and counts only the bar it leaves computes exactly the trapped water |
| ArrayStringExam.LowerAscii | src/pages/array-string-exam.tsx:139 | `toLowerCase` maps A-Z to a-z and leaves every other character alone |
| ArrayStringExam.Normalize | src/pages/array-string-exam.tsx:139 | normalising never lengthens a string |
| ArrayStringExam.NormalizeSingle | src/pages/array-string-exam.tsx:139 | one character: white space is dropped, anything else is kept, lower-cased |
| ArrayStringExam.NormalizeAppend | src/pages/array-string-exam.tsx:139 | normalising a concatenation normalises each part, so with NormalizeSingle every non-white-space character is kept, lower-cased, in order |
| ArrayStringExam.NormalizeClean | src/pages/array-string-exam.tsx:139 | the normalised string holds no white space and no upper-case letter |
| ArrayStringExam.IsAnagram | src/pages/array-string-exam.tsx:138-162 | true exactly when the normalised strings hold the same characters the same number of times |
| ArrayStringExam.GroupAnagrams | src/pages/array-string-exam.tsx:165-183 | the groups are non-empty, are the anagram classes of the input in order of first occurrence with members in input order, and every string lands in some group |
| ArrayStringExam.Gather | src/pages/array-string-exam.tsx:169-179 | the inner scan puts the first string and, in order, every anagram of it into the group and leaves exactly the others, in order |
| ArrayStringExam.LongestUniqueSubstringLength | src/pages/array-string-exam.tsx:35-53 | the result is the length of some substring with no repeated character, and no such substring is longer |
| ArrayStringExam.LongestUniqueSubstring | src/pages/array-string-exam.tsx:55-74 | the result is a substring with no repeated character; none is longer, and none as long starts earlier |
| ArrayStringExam.Brackets | src/pages/array-string-exam.tsx:86 | the filter keeps only bracket characters and never lengthens the string |
| ArrayStringExam.BracketsSingle | src/pages/array-string-exam.tsx:86 | one character is kept exactly when it is a bracket |
| ArrayStringExam.BracketsAppend | src/pages/array-string-exam.tsx:86 | the filter of a concatenation is the concatenation of the filters, so with BracketsSingle every bracket is kept, in order, and nothing else |
| ArrayStringExam.AcceptsBalanced | src/pages/array-string-exam.tsx:87-98 | the stack machine ends with an empty stack exactly on the properly nested bracket strings |
| ArrayStringExam.ValidParentheses | src/pages/array-string-exam.tsx:77-99 | true exactly when the brackets of the value, other characters ignored, are properly nested |
| ArrayStringExam.CoversPermutation | src/pages/array-string-exam.tsx:103 | reordering intervals does not change the points they cover |
| ArrayStringExam.MergeTwo | src/pages/array-string-exam.tsx:108-109 | two overlapping or touching intervals, the second starting no earlier, cover exactly the points of their merge |
| ArrayStringExam.GapKeepsApart | src/pages/array-string-exam.tsx:108 | [1, 3] and [4, 5] do not touch, so they are kept apart: 3.5 is covered by [1, 5] but by neither of them |
| ArrayStringExam.SortByStart | src/pages/array-string-exam.tsx:103 | the in-place sort leaves the intervals in start order and a permutation of the input |
| ArrayStringExam.MergeIntervals | src/pages/array-string-exam.tsx:102-117 | the result is non-empty, in start order with gaps between consecutive intervals, and covers exactly the points the input covers; the caller's array is left sorted by start with some ends grown by the merging |
| ArrayStringExam.LongestPalindromicSubstring | src/pages/array-string-exam.tsx:186-208 | the result is a palindromic substring; none is longer, and none as long starts earlier |
| LinkedListExam.Node.constructor | src/pages/linked-list-exam.tsx:1-7 | a new node holds its value and has no successor |
| LinkedListExam.CreateList | src/pages/linked-list-exam.tsx:3-12 | `createList` returns the head of a list of fresh nodes holding the given values in order |
| LinkedListExam.PrintList | src/pages/linked-list-exam.tsx:14-22 | `printList` renders exactly the list's values, in order, as "[a, b, …]" |
| LinkedListExam.ValuesReverse | src/pages/linked-list-exam.tsx:25-46 | the values of the reversed nodes are the reversed values |
| LinkedListExam.ReverseIterative | src/pages/linked-list-exam.tsx:25-35 | the nodes, relinked in place, form the reversed list headed by the old tail |
| LinkedListExam.ReverseRecursive | src/pages/linked-list-exam.tsx:36-46 | the nodes, relinked in place, form the reversed list headed by the old tail |
| LinkedListExam.MergeNodesPermutation | src/pages/linked-list-exam.tsx:49-65 | the merged list holds exactly the nodes of both lists, each as often as before |
| LinkedListExam.MergeNodesAscending | src/pages/linked-list-exam.tsx:53-62 | merging two ascending lists gives an ascending list |
| LinkedListExam.MergeNodesDistinct | src/pages/linked-list-exam.tsx:49-65 | merging two disjoint lists of distinct nodes repeats no node |
| LinkedListExam.MergeNodesFirst | src/pages/linked-list-exam.tsx:54-60 | the merge starts with the smaller first value, or with the other list's head when one is empty |
| LinkedListExam.MergeNodesMembers | src/pages/linked-list-exam.tsx:49-65 | a node is in the merge exactly when it is in one of the lists |
| LinkedListExam.MergeSortedList | src/pages/linked-list-exam.tsx:49-65 | the two lists' nodes are spliced into one list, taking the first list's node only when its value is strictly smaller, with the rest of the other list appended |
| LinkedListExam.SpliceWhileBoth | src/pages/linked-list-exam.tsx:53-62 | the loop stops with one list used up, the nodes spliced so far being a prefix of the merge and the untouched rest of both lists still linked |
| LinkedListExam.DetectCycle | src/pages/linked-list-exam.tsx:67-78 | Floyd's tortoise and hare return true exactly when the list loops back instead of ending |
| LinkedListExam.CloseCycle | src/pages/linked-list-exam.tsx:166-169 | pointing the tail back at the head makes a lasso looping at the head |
| LinkedListExam.MeetEqual | src/pages/linked-list-exam.tsx:70-75 | on a lasso the tortoise and the hare stand on the same node after a number of rounds |
| LinkedListExam.RemoveNthNodeFromEnd | src/pages/linked-list-exam.tsx:82-99 | the error is raised exactly when n is at least the length, and then no link has changed; otherwise the head is returned, the n-th node from the end is unlinked for 1 <= n, and nothing changes for n <= 0 |
| LinkedListExam.AddTwoNumbers | src/pages/linked-list-exam.tsx:104-120 | a list of newly allocated nodes whose values are the column sums with carry of the two lists' values, which are left unchanged |
| LinkedListExam.AddInto | src/pages/linked-list-exam.tsx:108-118 | the loop appends after the dummy head one newly allocated node per column holding the column's digit |
| LinkedListExam.AddDigitsAreDigits | src/pages/linked-list-exam.tsx:109-112 | for non-negative digit values every produced value is a digit 0..9 |
| LinkedListExam.AddDigitsCorrect | src/pages/linked-list-exam.tsx:104-120 | read least significant digit first, the produced number is the sum of the two inputs' numbers plus the carry |
| LinkedListExam.AddTwoNumbersValue | src/pages/linked-list-exam.tsx:101-120 | for non-negative inputs the sum list is a digit list whose number is the sum of the inputs' numbers |
| TreeGraphExam.TreeNode.constructor | src/pages/tree-graph-exam.tsx:3-12 | a node holds the given value and the given left and right children |
| TreeGraphExam.GetHeight | src/pages/tree-graph-exam.tsx:52-55 | the height read off the linked nodes is the height of the tree they represent, and it is zero exactly for the null node |
| TreeGraphExam.LevelsEndAtHeight | src/pages/tree-graph-exam.tsx:52-58 | depth `d` holds a node exactly when `d` is below the height, so the height counts the non-empty levels |
| TreeGraphExam.LevelWidth | src/pages/tree-graph-exam.tsx:58 | depth `d` holds at most 2^d values, the row width the printer allots |
| TreeGraphExam.SubtreesLevel | src/pages/tree-graph-exam.tsx:119-125 | the values of the subtrees rooted at depth `d` are the level at depth `d` |
| TreeGraphExam.SubtreesNext | src/pages/tree-graph-exam.tsx:123-124 | the children of the subtrees at depth `d`, left before right, are the subtrees at depth `d + 1` |
| TreeGraphExam.BfsSplit | src/pages/tree-graph-exam.tsx:115-125 | handling a whole queue-full first and then the rest gives the node-at-a-time breadth-first order |
| TreeGraphExam.NilHead | src/pages/tree-graph-exam.tsx:123-124 | an empty child at the head of a queue contributes nothing to the breadth-first order |
| TreeGraphExam.NodeHead | src/pages/tree-graph-exam.tsx:120-124 | a node at the head of the queue is visited first and its children join the back |
| TreeGraphExam.LevelsFrom | src/pages/tree-graph-exam.tsx:109-131 | the levels from depth `d` on, concatenated, are the breadth-first order of the subtrees at depth `d` |
| TreeGraphExam.LevelsConcatenate | src/pages/tree-graph-exam.tsx:109-131 | concatenating a level list gives the breadth-first order of the whole tree |
| TreeGraphExam.LevelOrderUnique | src/pages/tree-graph-exam.tsx:165-166 | any two level lists of one tree are equal, so the iterative and recursive traversals agree |
| TreeGraphExam.TakeLevel | src/pages/tree-graph-exam.tsx:116-125 | one pass of the `for` loop records the values of the current level's nodes and leaves exactly their children on the queue |
| TreeGraphExam.BfsTraverse | src/pages/tree-graph-exam.tsx:109-131 | the result lists the tree's levels, one per depth from the root to the deepest node |
| TreeGraphExam.Push | src/pages/tree-graph-exam.tsx:141-145 | a new bucket is opened only on first reaching a depth, so the result is one longer than the deepest depth seen |
| TreeGraphExam.Collect | src/pages/tree-graph-exam.tsx:136-149 | the recursive walk only ever adds buckets |
| TreeGraphExam.CollectLevels | src/pages/tree-graph-exam.tsx:136-149 | after the walk from depth `level`, each bucket `k` has grown by exactly the subtree's values at depth `k - level`, left to right |
| TreeGraphExam.Traverse | src/pages/tree-graph-exam.tsx:136-149 | the pre-order walk over the linked nodes leaves the buckets the walk specification describes |
| TreeGraphExam.BfsTraverseRecursive | src/pages/tree-graph-exam.tsx:133-153 | the result lists the tree's levels, one per depth, the same as `bfsTraverse` |
| TreeGraphExam.HeapTreeValid | src/pages/tree-graph-exam.tsx:16-37 | nodes linked to their heap positions `2k + 1` and `2k + 2` form a valid tree with the array's values laid out in heap order |
| TreeGraphExam.LinkedAt | src/pages/tree-graph-exam.tsx:25-30 | node `k` holds `arr[k]` and its children are the nodes for positions `2k + 1` and `2k + 2` |
| TreeGraphExam.BuiltTree | src/pages/tree-graph-exam.tsx:22-36 | once the array is consumed the root is the node for `arr[0]` of a valid heap-ordered tree |
| TreeGraphExam.PendingStep | src/pages/tree-graph-exam.tsx:23-32 | giving the front node of the queue its children keeps every earlier node's links and leaves the new nodes childless |
| TreeGraphExam.TailStep | src/pages/tree-graph-exam.tsx:23-31 | after a shift and the pushes the queue is still the tail of the nodes made so far |
| TreeGraphExam.AddChildren | src/pages/tree-graph-exam.tsx:23-33 | the front node gets a fresh left child for `arr[i]` and, when the array goes on, a fresh right child for `arr[i + 1]`; no other node changes |
| TreeGraphExam.CreateBinaryTree | src/pages/tree-graph-exam.tsx:16-37 | null for an empty array; otherwise the root of a valid tree holding `arr` in heap order |
| TreeGraphExam.LevelStart | src/pages/tree-graph-exam.tsx:22-33 | depth `d` below heap position `m` starts at or after `m` |
| TreeGraphExam.StartClosedForm | src/pages/tree-graph-exam.tsx:22-33 | depth `d` below position `m` starts at `(m + 1) * 2^d - 1` |
| TreeGraphExam.HeapLevel | src/pages/tree-graph-exam.tsx:16-37 | depth `d` of the heap-ordered subtree at `m` is the contiguous slice of the array between the depth-`d` starts of `m` and `m + 1` |
| TreeGraphExam.CreatedLevels | src/pages/tree-graph-exam.tsx:163-166 | depth `d` of the tree built from `arr` is `arr[2^d - 1 .. 2^(d+1) - 1]`, cut off at the end of the array |
| Text.NatToStringValue | src/components/ui/date-time/date-time-number-input.tsx:37-40 | the decimal string of `n` reads back as `n` |
| Text.SplitJoin | src/components/ui/date-time/date-input.tsx:77-78 | joining the pieces of a split with the separator gives back the original string |
| Text.JoinSplit | src/components/ui/date-time/date-input.tsx:77-78 | splitting a join of separator-free pieces gives back the pieces |
| Gregorian.AddDaysNumber | src/components/ui/date-time/date-picker.tsx:272-320 | moving by `n` days moves the day number by exactly `n` |
| Gregorian.AddDaysInverse | src/components/ui/date-time/date-picker.tsx:272-320 | moving back by `n` days undoes moving forward by `n` days |
| DatePicker.GridDayNumbers | src/components/ui/date-time/date-picker.tsx:127-168 | the grid cells are consecutive days: cell `k` is `k` days after the first cell |
| ArrayStringExam.ScanDone | src/pages/array-string-exam.tsx:231-250 | when the two pointers have crossed, the corrected scan's total is the trapped water of every position, and it is non-negative |
| ArrayStringExam.MergeDone | src/pages/array-string-exam.tsx:106-116 | at the end of the merge loop the intervals pushed plus the last open one are pairwise apart and cover exactly the points the sorted input covers |
| ArrayStringExam.SortingDone | src/pages/array-string-exam.tsx:169-180 | after one pass the group holds the first word and every later anagram of it in order, and the leftover list holds the rest in order |
| ArrayStringExam.GroupIsClass | src/pages/array-string-exam.tsx:165-183 | each group built from the leftover list is exactly the input's words with that letter multiset, in input order |
| ArrayStringExam.WindowBound | src/pages/array-string-exam.tsx:55-74 | the sliding window's left end is at or before the start of every repeat-free substring ending at the same place |
| ArrayStringExam.PalindromeDone | src/pages/array-string-exam.tsx:186-208 | once no longer start is left, the result is a longest palindrome and the earliest one among those of its length |
| LinkedListExam.AcyclicRound | src/pages/linked-list-exam.tsx:67-78 | on a list without a cycle, one round moves the slow pointer one node and the fast pointer two, and they differ while the fast one has a next node |
| LinkedListExam.CyclicRound | src/pages/linked-list-exam.tsx:67-78 | on a list with a cycle, one round moves the slow pointer one position and the fast pointer two positions along the lasso |
| TimeInput.PipeParse | src/components/ui/date-time/time-input.tsx:8 | a string the regex accepts with '\|' in the hour's first place parses to no hour and its minute |
| TimeInput.MissingHour | src/components/ui/date-time/time-input.tsx:62-65 | with no hour the shown string keeps the "HH" placeholder before the colon and the padded minute |

## Left out

- DatePicker.DatePickerState.constructor: an unparsable value is not modelled as the source treats it. The source keeps the raw string as `currentDate`, then builds the grid from an invalid dayjs date, so the grid is empty and paging shows "Invalid Date". The model shows today's month instead.
- DatePicker.DatePickerState.constructor: `dayjs(value, pattern)` is not modelled. It is abstracted as the `Selection` value `Loose(parsed)`, whose parsed date is a free parameter, because the dayjs parser is not part of this model.
- DatePicker.DatePickerState.ChangeEffect: it models one firing of the dependency-free `onChange` effect per host event. The extra firings on later renders repeat the same value and are not modelled.
- ArrayStringExam.LowerAscii: only `A`–`Z` are lowered. `toLowerCase` also folds other Unicode letters, for example "É" to "é".
- ArrayStringExam.Normalize: its white space is the full ECMAScript set that `\s` matches (`Text.IsJsWhitespace`), but its case folding is only that of `LowerAscii`.
- ArrayStringExam.IsAnagram: it inherits `Normalize`'s case folding. Two strings that differ only in non-ASCII case are not anagrams in the model, but they are in the source.
- ArrayStringExam.GroupAnagrams: it inherits the same restriction through `IsAnagram`.
- ArrayStringExam.IsAnagram: it compares lengths and counts characters, which are Unicode scalar values. The source compares `length` and counts `s1[i]`, which are UTF-16 code units. So "\uD83D\uDE00\uD83E\uDD00" and "\uD83D\uDD00\uD83E\uDE00" hold the same code units and are anagrams in the source, but not in the model.
- ArrayStringExam.GroupAnagrams: it inherits the same code-unit difference through `IsAnagram`.
- ArrayStringExam.LongestUniqueSubstring: strings are sequences of characters. JavaScript indexes UTF-16 code units, so a character outside the Basic Multilingual Plane counts as two units there.
- ArrayStringExam.LongestUniqueSubstringLength: the same code-unit difference applies; the length is counted in characters, not in UTF-16 code units.
- ArrayStringExam.LongestPalindromicSubstring: the same code-unit caveat applies, for `split("")` and `substring`.
- ArrayStringExam.MergeIntervals: it requires a non-empty input. On an empty array the source returns `[undefined]`, which the model's interval type cannot hold.
- ArrayStringExam.MergeIntervals: intervals are values. The widened ends are written back into `arr`, as the source's shared interval objects are widened. The merged result does not share storage with `arr`, so a later change to one does not show in the other.
- ArrayStringExam.ContainerWithMostWater: optimality is proved for non-negative heights only, the heights a container has.
- JavaScript numbers, which are IEEE doubles, are modelled as unbounded integers throughout: the exam arrays, the linked-list and tree values, the `parseInt` results and the widget values. Fractions, `NaN` as a value, ±Infinity, -0 and the loss of precision above 2^53 are not modelled, for example in `target - arr[i]` in `twoSum` or `parseInt` of a twenty-digit paste.
- ArrayStringExam.ThreeSumAll: it reports every zero triple of positions, so equal values at different positions give repeated triples; for [0,0,0,0] it reports (0,0,0) more than once. Removing the duplicates, the "unique" of the source's comment, is not modelled.
- LinkedListExam.CreateList: it requires a non-empty list of values. On an empty array the source builds one node whose value is `undefined`, which the integer model cannot hold.
- LinkedListExam.MergeSortedList: it requires the two lists to share no node, the case the source's demo uses. Merging a list with itself, which relinks shared nodes, is not modelled.
- LinkedListExam.AddTwoNumbers: the digit and sum properties are proved for non-negative values only. For other values the model still computes the source's column sums with `%` truncating toward zero.
- LinkedListExam.DetectCycle: the shape of the list is a ghost parameter, a lasso of distinct nodes. The method reads only the `next` fields.
- LinkedListExam.RemoveNthNodeFromEnd: for `n` at or beyond the list's length, the source throws an `Error`. The model returns `None` in that case and leaves every link unchanged.
- TreeGraphExam: `printBinaryTree` and `printTreeSimple` are console renderers and are not modelled, except for `getHeight` (`TreeGraphExam.GetHeight`) and the row-width bound (`TreeGraphExam.LevelWidth`). The `null` holes a heap array could contain are not modelled either, because the declared type is `number[]`.
- DateInput.Decompose: `DecomposeSpec` is the ghost specification the parsing loop is proved against.
- DateInput.AssignByPosition: `AssignedAfter` is the ghost specification the parsing loop is proved against.
- Dates in the pickers are `Gregorian.Date` values rather than strings formatted by a dayjs pattern. The model assumes a `pattern` that dayjs's default parser reads back, such as the default `YYYY-MM-DD`, the only pattern any call site uses. The source never loads dayjs's custom-format plugin, so `dayjs(str, pattern)` ignores `pattern`; other patterns are not modelled.
- DatePicker.DatePickerState.SelectDate: it stores the picked date as `Exact(date)`, which is faithful only for such patterns. With `pattern="DD/MM/YYYY"`, picking 25 December 2023 stores "25/12/2023", which dayjs's default parser does not read back, so `isValidDate` is false.
- DatePicker.DatePickerState.Toggle: it focuses an `Exact` selection on opening. For the source this holds only when `isValidDate` accepts the stored string, so with `DD/MM/YYYY` the source focuses the displayed date instead.
- The current date (`TODAY`, `dayjs()`) is a parameter `today`.
- Timers are modelled as a counter of pending hides (`pendingHides`) and an explicit `HideTimerFires` step.
- DOM focus, scrolling, refs, CSS classes, `uuid` ids, i18n labels and `textValue` strings are not modelled. Only the focused cell is kept, as a value.
- Browser input events are reduced to the data the handlers read: the key, the inserted text and the pasted text.
- The test files and the routing, button, card and dropdown components are not part of this model.

## Findings

| source | as written | input that shows it | evidently intended | confidence | as-written member | corrected member |
|---|---|---|---|---|---|---|
| src/components/ui/date-time/date-input.tsx:159-162 | `handleDateChange` calls `setYear`/`setMonth`/`setDay` and then `onChange(dateStrValue)`, with `dateStrValue` computed from the state before the change | 31 January 2023, then the month set to 2: the state becomes 28 February 2023, but "2023-01-31" is reported | report the string of the new state | not executed | DateInput.StaleDateNotice | DateInput.NotifiedAfterChangeDecomposes |
| src/components/ui/date-time/time-input.tsx:73-77 | `handleTimeChange` sets the hour or minute and then reports `timeStrValue` from before the change | "10:15" with the minute set to 20: "10:15" is reported | report the new "HH:mm" string | not executed | TimeInput.StaleTimeNotice | TimeInput.NotifiedAfterTimeChangeParses |
| src/components/ui/date-time/time-input.tsx:8 | the character class `[0\|1]` admits a literal pipe as the hour's first character | "\|5:30" passes `isValidTime` | `(?:[01]\d\|2[0-3])`, accepting only times of day | not executed | TimeInput.PipeAccepted | TimeInput.CorrectedIsTimeOfDay |
| src/pages/array-string-exam.tsx:231-250 | both pointers add water in the same round, before either moves, so a bar can be counted by both sides | [2,0,1,0,2] gives 7 | 5, the water above each bar under the lower of its two highest walls | not executed | ArrayStringExam.TrappedWaterOvercounts | ArrayStringExam.TrappedWaterCorrected |
| src/components/ui/date-time-input.tsx:36-53 | `daysInMonth(month, year)` receives dayjs's 0-based month, while `daysInMonth` expects 1-based | 31 March 2023 gets a day maximum of 28 | the length of the date's own month | not executed | DateTimeInput.DayMaxExcludesMarch31 | DateTimeInput.DayMaxCorrectedFits |
| src/pages/array-string-exam.tsx:213-214 | the loop bound `i < arr.length - 3` and `arr.splice(i + 1)` look only at triples that start with the first element | [1,2,-3,5,-7] misses 2 + 5 - 7 = 0 | every zero triple, not only those starting with the first element | not executed | ArrayStringExam.ThreeSumMissesTriple | ArrayStringExam.ThreeSumAll |
