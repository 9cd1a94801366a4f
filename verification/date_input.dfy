/**
 * `DateInput`: a date typed as three `DateTimeNumberInput` segments (year,
 * month, day) laid out by a pattern such as `YYYY-MM-DD` or `DD/MM/YYYY`.
 * The pattern grammar, the string ⇄ segments conversions, the per-segment
 * bounds and the day clamping on every segment change are modelled; the
 * notified string is an explicit output of `HandleDateChange`.
 */
module DateInput {
  import opened Text
  import Utils
  import Gregorian

  datatype Token = YYYY | MM | DD

  function TokenText(t: Token): (s: string)
    ensures |s| >= 2 && (s[0] == 'Y' || s[0] == 'M' || s[0] == 'D')
    ensures forall i :: 0 <= i < |s| ==> s[i] == s[0]
  {
    match t
    case YYYY => "YYYY"
    case MM => "MM"
    case DD => "DD"
  }

  /** A successful match of the pattern regex: three tokens and the separator used twice. */
  datatype PatternMatch = PatternMatch(t1: Token, sep: char, t2: Token, t3: Token)

  predicate IsSeparator(c: char) { c == '-' || c == '/' }

  /** The string a match was made from. */
  function Render(m: PatternMatch): string {
    TokenText(m.t1) + [m.sep] + TokenText(m.t2) + [m.sep] + TokenText(m.t3)
  }

  /** The token `(YYYY|MM|DD)` that `s` starts with, if any (their first letters differ, so at most one). */
  function LeadingToken(s: string): (t: Option<Token>)
    ensures t.Some? ==> |TokenText(t.value)| <= |s| && s == TokenText(t.value) + s[|TokenText(t.value)|..]
  {
    if |s| >= 4 && s[..4] == "YYYY" then Some(YYYY)
    else if |s| >= 2 && s[..2] == "MM" then Some(MM)
    else if |s| >= 2 && s[..2] == "DD" then Some(DD)
    else None
  }

  /** The text after the leading token, if `s` starts with one. */
  function AfterToken(s: string): (r: Option<(Token, string)>)
    ensures r.Some? ==> s == TokenText(r.value.0) + r.value.1
  {
    var t := LeadingToken(s);
    if t.None? then None else Some((t.value, s[|TokenText(t.value)|..]))
  }

  /**
   * `pattern.match(/^(YYYY|MM|DD)([-\/])(MM|DD|YYYY)\2(MM|DD|YYYY)$/)`: a
   * match gives back exactly the pattern it was made from.
   */
  function MatchPattern(s: string): (r: Option<PatternMatch>)
    ensures r.Some? ==> Render(r.value) == s && IsSeparator(r.value.sep)
  {
    match AfterToken(s)
    case None => None
    case Some((t1, r1)) =>
      if r1 == [] || !IsSeparator(r1[0]) then None
      else
        match AfterToken(r1[1..])
        case None => None
        case Some((t2, r2)) =>
          if r2 == [] || r2[0] != r1[0] then None
          else
            match AfterToken(r2[1..])
            case None => None
            case Some((t3, r3)) =>
              if r3 != [] then None
              else
                RenderFromParts(s, t1, r1, t2, r2, t3);
                Some(PatternMatch(t1, r1[0], t2, t3))
  }

  lemma RenderFromParts(s: string, t1: Token, r1: string, t2: Token, r2: string, t3: Token)
    requires r1 != [] && r2 != [] && r2[0] == r1[0]
    requires s == TokenText(t1) + r1 && r1[1..] == TokenText(t2) + r2 && r2[1..] == TokenText(t3) + []
    ensures Render(PatternMatch(t1, r1[0], t2, t3)) == s
  {
    var a, b, c, sep := TokenText(t1), TokenText(t2), TokenText(t3), r1[0];
    calc {
      s;
      a + r1;
      { Uncons(r1); }
      a + ([sep] + r1[1..]);
      a + ([sep] + (b + r2));
      { Uncons(r2); assert r2[1..] == c; }
      a + ([sep] + (b + ([sep] + c)));
      { Regroup(a, [sep], b, c); }
      a + [sep] + b + [sep] + c;
    }
  }

  lemma Uncons(r: string)
    requires r != []
    ensures r == [r[0]] + r[1..]
  {
  }

  lemma Regroup(a: string, x: string, b: string, c: string)
    ensures a + (x + (b + (x + c))) == a + x + b + x + c
  {
  }

  /** `isValidPattern`: the regex matches and the three tokens are distinct. */
  predicate IsValidPattern(pattern: string) {
    var m := MatchPattern(pattern);
    m.Some? && m.value.t1 != m.value.t2 && m.value.t2 != m.value.t3 && m.value.t1 != m.value.t3
  }

  /** The year, month (1-based) and day state of the component; `None` is `undefined`. */
  datatype Ymd = Ymd(year: Option<int>, month: Option<int>, day: Option<int>)

  function ValueOf(ymd: Ymd, t: Token): Option<int> {
    match t
    case YYYY => ymd.year
    case MM => ymd.month
    case DD => ymd.day
  }

  function Tokens(m: PatternMatch): seq<Token> { [m.t1, m.t2, m.t3] }

  /**
   * What `getYearMonthDayFromStringDate` gives for the value split into
   * `parts`: the number at the position of the token's LAST occurrence in the
   * pattern (later assignments win), `None` when that part is not numeric or
   * missing, or when the token does not occur.
   */
  function FieldOf(m: PatternMatch, t: Token, parts: seq<string>): Option<int> {
    if m.t3 == t then ParseIntAt(parts, 2)
    else if m.t2 == t then ParseIntAt(parts, 1)
    else if m.t1 == t then ParseIntAt(parts, 0)
    else None
  }

  /** The year, month and day read from the value's `parts` under match `m`. */
  function FieldsOf(m: PatternMatch, parts: seq<string>): Ymd {
    Ymd(FieldOf(m, YYYY, parts), FieldOf(m, MM, parts), FieldOf(m, DD, parts))
  }

  /** `getYearMonthDayFromStringDate(strDate, format)`, stated declaratively. */
  function DecomposeSpec(strDate: string, format: string): Option<Ymd> {
    var m := MatchPattern(format);
    if m.None? then None else Some(FieldsOf(m.value, Split(strDate, m.value.sep)))
  }

  /** The value the `forEach` has assigned to the variable of token text `text` after its first `n` steps. */
  ghost function AssignedAfter(patternParts: seq<string>, text: string, dateParts: seq<string>, n: nat): Option<int>
    requires n <= |patternParts|
  {
    if n == 0 then None
    else if patternParts[n - 1] == text then ParseIntAt(dateParts, n - 1)
    else AssignedAfter(patternParts, text, dateParts, n - 1)
  }

  /** `getYearMonthDayFromStringDate`: split both strings on the separator and assign by position. */
  method Decompose(strDate: string, format: string) returns (r: Option<Ymd>)
    ensures r == DecomposeSpec(strDate, format)
  {
    var m := MatchPattern(format);
    if m.None? {
      return None;
    }
    var separator := m.value.sep;
    var patternParts := Split(format, separator);
    var dateParts := Split(strDate, separator);
    var year, month, day := AssignByPosition(patternParts, dateParts);
    LoopFields(m.value, dateParts);
    r := Some(Ymd(year, month, day));
  }

  /** The `forEach` over the pattern's parts: each token's variable takes the number at its position. */
  method AssignByPosition(patternParts: seq<string>, dateParts: seq<string>) returns (year: Option<int>, month: Option<int>, day: Option<int>)
    ensures year == AssignedAfter(patternParts, "YYYY", dateParts, |patternParts|)
    ensures month == AssignedAfter(patternParts, "MM", dateParts, |patternParts|)
    ensures day == AssignedAfter(patternParts, "DD", dateParts, |patternParts|)
  {
    year, month, day := None, None, None;
    for i := 0 to |patternParts|
      invariant year == AssignedAfter(patternParts, "YYYY", dateParts, i)
      invariant month == AssignedAfter(patternParts, "MM", dateParts, i)
      invariant day == AssignedAfter(patternParts, "DD", dateParts, i)
    {
      var val := ParseIntAt(dateParts, i);
      if patternParts[i] == "YYYY" {
        year := val;
      }
      if patternParts[i] == "MM" {
        month := val;
      }
      if patternParts[i] == "DD" {
        day := val;
      }
    }
  }

  /** One segment's text: the placeholder when empty, otherwise the number zero-padded to the placeholder's width. */
  function Cell(ymd: Ymd, t: Token): string {
    var v := ValueOf(ymd, t);
    if v.None? then TokenText(t) else Utils.ZeroPad(v.value, |TokenText(t)|)
  }

  /** The three cells in the order of match `m`, joined by its separator; "" when none of them has a value. */
  function SerializeWith(ymd: Ymd, m: PatternMatch): string {
    if ValueOf(ymd, m.t1).None? && ValueOf(ymd, m.t2).None? && ValueOf(ymd, m.t3).None? then ""
    else Join([Cell(ymd, m.t1), Cell(ymd, m.t2), Cell(ymd, m.t3)], m.sep)
  }

  /** `dateStrValue`: "" with no match or no value at all, otherwise the three cells joined by the separator. */
  function Serialize(ymd: Ymd, pattern: string): string {
    var m := MatchPattern(pattern);
    if m.None? then "" else SerializeWith(ymd, m.value)
  }

  /** A segment's bounds and value, as handed to its `DateTimeNumberInput`. */
  datatype Segment = Segment(token: Token, min: int, max: int, value: Option<int>)

  function SegmentFor(ymd: Ymd, t: Token): (s: Segment)
    ensures s.token == t && s.value == ValueOf(ymd, t) && s.min == 1
  {
    match t
    case YYYY => Segment(YYYY, 1, 2199, ymd.year)
    case MM => Segment(MM, 1, 12, ymd.month)
    case DD => Segment(DD, 1, Utils.DaysInMonth(ymd.month, ymd.year), ymd.day)
  }

  /** `parsedPattern.parts`, in pattern order; absent when the regex does not match. */
  function Segments(ymd: Ymd, pattern: string): Option<seq<Segment>> {
    var m := MatchPattern(pattern);
    if m.None? then None
    else Some([SegmentFor(ymd, m.value.t1), SegmentFor(ymd, m.value.t2), SegmentFor(ymd, m.value.t3)])
  }

  /**
   * The new state `handleDateChange(type, num)` sets: the edited segment
   * replaced, and the day cut to the length of the (new) month when it exceeds it.
   */
  function ApplyDateChange(ymd: Ymd, t: Token, num: Option<int>): Ymd {
    var newYear := if t == YYYY then num else ymd.year;
    var newMonth := if t == MM then num else ymd.month;
    var newDay := if t == DD then num else ymd.day;
    var maxDay := Utils.DaysInMonth(newMonth, newYear);
    Ymd(newYear, newMonth, if newDay.Some? && newDay.value > maxDay then Some(maxDay) else newDay)
  }

  /** The day never exceeds the day segment's maximum. */
  predicate DayFits(ymd: Ymd) {
    ymd.day.None? || ymd.day.value <= Utils.DaysInMonth(ymd.month, ymd.year)
  }

  class DateInputState {
    var year: Option<int>
    var month: Option<int>
    var day: Option<int>
    /** The `pattern` prop (default `YYYY-MM-DD`). */
    const pattern: string

    function State(): Ymd
      reads this
    {
      Ymd(year, month, day)
    }

    function DateStrValue(): string
      reads this
    {
      Serialize(State(), pattern)
    }

    /** Whether the segments and the hidden input are rendered (otherwise "Invalid pattern" is). */
    predicate Rendered()
      reads this
    {
      IsValidPattern(pattern)
    }

    /** Mounting with `value` and `pattern`, once the value-sync effect has run. */
    constructor (value: string, pattern: string)
      ensures this.pattern == pattern
      ensures var ymd := DecomposeSpec(value, pattern);
              State() == if value == [] || pattern == [] || ymd.None? then Ymd(None, None, None) else ymd.value
    {
      this.pattern := pattern;
      if value != [] && pattern != [] {
        var ymd := Decompose(value, pattern);
        if ymd.Some? {
          year, month, day := ymd.value.year, ymd.value.month, ymd.value.day;
        } else {
          year, month, day := None, None, None;
        }
      } else {
        year, month, day := None, None, None;
      }
    }

    /** The effect on `[value, pattern]`: a non-empty value is decomposed into the segments. */
    method ReceiveValue(value: string)
      modifies this
      ensures var ymd := DecomposeSpec(value, pattern);
              if value == [] || pattern == [] then State() == old(State())
              else State() == if ymd.None? then Ymd(None, None, None) else ymd.value
    {
      if value != [] && pattern != [] {
        var ymd := Decompose(value, pattern);
        if ymd.Some? {
          year, month, day := ymd.value.year, ymd.value.month, ymd.value.day;
        } else {
          year, month, day := None, None, None;
        }
      }
    }

    /**
     * `handleDateChange(type, num)`. `notice` is the `onChange` call, made only
     * when the hidden input exists; it carries `dateStrValue` as memoised at
     * the last render, i.e. the string of the state BEFORE this change.
     */
    method HandleDateChange(t: Token, num: Option<int>) returns (notice: Option<string>)
      modifies this
      ensures State() == ApplyDateChange(old(State()), t, num)
      ensures notice == if IsValidPattern(pattern) then Some(Serialize(old(State()), pattern)) else None
    {
      var stale := DateStrValue();
      var next := ApplyDateChange(State(), t, num);
      year, month, day := next.year, next.month, next.day;
      if IsValidPattern(pattern) {
        notice := Some(stale);
      } else {
        notice := None;
      }
    }
  }

  /** The string the change should report: that of the state after the change. */
  function NotifiedAfterChange(ymd: Ymd, pattern: string, t: Token, num: Option<int>): Option<string> {
    if IsValidPattern(pattern) then Some(Serialize(ApplyDateChange(ymd, t, num), pattern)) else None
  }

  // ---------------------------------------------------------------------------
  // Properties: the pattern grammar
  // ---------------------------------------------------------------------------

  lemma TokenTextInjective(a: Token, b: Token)
    ensures TokenText(a) == TokenText(b) <==> a == b
  {
    if TokenText(a) == TokenText(b) {
      assert TokenText(a)[0] == TokenText(b)[0];
    }
  }

  lemma TokenTextNoSeparator(t: Token, c: char)
    requires IsSeparator(c)
    ensures c !in TokenText(t)
  {
  }

  lemma AfterTokenOf(t: Token, rest: string)
    ensures AfterToken(TokenText(t) + rest) == Some((t, rest))
  {
    var s := TokenText(t) + rest;
    assert s[..|TokenText(t)|] == TokenText(t);
    assert s[|TokenText(t)|..] == rest;
  }

  /** Every token-separator-token-separator-token string matches, with those parts. */
  lemma MatchPatternComplete(m: PatternMatch)
    requires IsSeparator(m.sep)
    ensures MatchPattern(Render(m)) == Some(m)
  {
    var r2 := [m.sep] + TokenText(m.t3);
    var r1 := [m.sep] + (TokenText(m.t2) + r2);
    RenderParts(m, r1, r2);
    AfterTokenOf(m.t1, r1);
    AfterTokenOf(m.t2, r2);
    AfterTokenOf(m.t3, []);
  }

  lemma RenderParts(m: PatternMatch, r1: string, r2: string)
    requires r2 == [m.sep] + TokenText(m.t3) && r1 == [m.sep] + (TokenText(m.t2) + r2)
    ensures Render(m) == TokenText(m.t1) + r1 && r1[1..] == TokenText(m.t2) + r2
    ensures r2[1..] == TokenText(m.t3) + [] && r1 != [] && r2 != [] && r1[0] == r2[0] == m.sep
  {
    Regroup(TokenText(m.t1), [m.sep], TokenText(m.t2), TokenText(m.t3));
    assert TokenText(m.t3) + [] == TokenText(m.t3);
  }

  /** A rendering of three distinct tokens with a separator is a valid pattern. */
  lemma ValidRender(m: PatternMatch, s: string)
    requires IsSeparator(m.sep) && m.t1 != m.t2 && m.t2 != m.t3 && m.t1 != m.t3 && s == Render(m)
    ensures IsValidPattern(s)
  {
    MatchPatternComplete(m);
  }

  /** The default pattern `YYYY-MM-DD` is valid. */
  lemma DefaultPatternValid()
    ensures IsValidPattern("YYYY-MM-DD")
  {
    ValidRender(PatternMatch(YYYY, '-', MM, DD), "YYYY-MM-DD");
  }

  /** `DD/MM/YYYY` is valid. */
  lemma DayFirstPatternValid()
    ensures IsValidPattern("DD/MM/YYYY")
  {
    ValidRender(PatternMatch(DD, '/', MM, YYYY), "DD/MM/YYYY");
  }

  /** A two-letter year does not match at all. */
  lemma TwoLetterYearInvalid()
    ensures MatchPattern("YY-MM-DD").None? && !IsValidPattern("YY-MM-DD")
  {
    var s := "YY-MM-DD";
    assert LeadingToken(s) == None by {
      assert s[..4][2] == '-';
      assert s[..2][0] == 'Y';
    }
    assert AfterToken(s) == None;
  }

  /** A repeated token matches the regex but fails the uniqueness check. */
  lemma RepeatedTokenInvalid()
    ensures MatchPattern("YYYY-MM-YYYY").Some? && !IsValidPattern("YYYY-MM-YYYY")
  {
    MatchPatternComplete(PatternMatch(YYYY, '-', MM, YYYY));
    assert Render(PatternMatch(YYYY, '-', MM, YYYY)) == "YYYY-MM-YYYY";
  }

  /** The back-reference demands the same separator twice. */
  lemma MixedSeparatorsInvalid()
    ensures MatchPattern("YYYY-MM/DD").None?
  {
    var s := "YYYY-MM/DD";
    AfterTokenOf(YYYY, "-MM/DD");
    assert s == TokenText(YYYY) + "-MM/DD";
    AfterTokenOf(MM, "/DD");
    assert "-MM/DD"[1..] == TokenText(MM) + "/DD";
  }

  /** Splitting a matched pattern on its separator gives its three token texts. */
  lemma PatternSplits(m: PatternMatch)
    requires IsSeparator(m.sep)
    ensures Split(Render(m), m.sep) == [TokenText(m.t1), TokenText(m.t2), TokenText(m.t3)]
  {
    var texts := [TokenText(m.t1), TokenText(m.t2), TokenText(m.t3)];
    TokenTextNoSeparator(m.t1, m.sep);
    TokenTextNoSeparator(m.t2, m.sep);
    TokenTextNoSeparator(m.t3, m.sep);
    assert Join(texts[2..], m.sep) == TokenText(m.t3);
    assert Join(texts[1..], m.sep) == TokenText(m.t2) + [m.sep] + TokenText(m.t3) by {
      assert texts[1..][1..] == texts[2..];
    }
    assert Join(texts, m.sep) == Render(m);
    JoinSplit(texts, m.sep);
  }

  /** After the loop over a matched pattern's three parts, the variables hold the fields `FieldsOf` reads. */
  lemma LoopFields(m: PatternMatch, dateParts: seq<string>)
    requires IsSeparator(m.sep)
    ensures var pp := Split(Render(m), m.sep);
            |pp| == 3 &&
            FieldsOf(m, dateParts) ==
            Ymd(AssignedAfter(pp, "YYYY", dateParts, 3), AssignedAfter(pp, "MM", dateParts, 3), AssignedAfter(pp, "DD", dateParts, 3))
  {
    PatternSplits(m);
    AssignedAfterTokens(m, YYYY, dateParts);
    AssignedAfterTokens(m, MM, dateParts);
    AssignedAfterTokens(m, DD, dateParts);
  }

  lemma {:induction false} AssignedAfterTokens(m: PatternMatch, t: Token, dateParts: seq<string>)
    ensures var patternParts := [TokenText(m.t1), TokenText(m.t2), TokenText(m.t3)];
            AssignedAfter(patternParts, TokenText(t), dateParts, 3) == FieldOf(m, t, dateParts)
  {
    TokenTextInjective(m.t1, t);
    TokenTextInjective(m.t2, t);
    TokenTextInjective(m.t3, t);
    var pp := [TokenText(m.t1), TokenText(m.t2), TokenText(m.t3)];
    var text := TokenText(t);
    assert AssignedAfter(pp, text, dateParts, 1) == if pp[0] == text then ParseIntAt(dateParts, 0) else None;
    assert AssignedAfter(pp, text, dateParts, 2) ==
           if pp[1] == text then ParseIntAt(dateParts, 1) else AssignedAfter(pp, text, dateParts, 1);
    assert AssignedAfter(pp, text, dateParts, 3) ==
           if pp[2] == text then ParseIntAt(dateParts, 2) else AssignedAfter(pp, text, dateParts, 2);
  }

  // ---------------------------------------------------------------------------
  // Properties: serialisation and decomposition
  // ---------------------------------------------------------------------------

  /** Each segment value fits its placeholder's width. */
  predicate Fits(ymd: Ymd) {
    (ymd.year.None? || 0 <= ymd.year.value < 10000) &&
    (ymd.month.None? || 0 <= ymd.month.value < 100) &&
    (ymd.day.None? || 0 <= ymd.day.value < 100)
  }

  lemma PlaceholderParses(t: Token)
    ensures ParseIntNoRadix(TokenText(t)) == None
  {
    NoRadixNonNumeric(TokenText(t));
  }

  lemma PowersOfTen()
    ensures Utils.Pow10(2) == 100 && Utils.Pow10(4) == 10000
  {
  }

  lemma {:induction false} NumberCellParses(v: nat, w: nat, c: char)
    requires 1 <= w && v < Utils.Pow10(w) && IsSeparator(c)
    ensures c !in Utils.ZeroPad(v, w)
    ensures ParseIntNoRadix(Utils.ZeroPad(v, w)) == Some(v)
  {
    Utils.ZeroPadRoundTrip(v, w);
    Utils.ZeroPadWidth(v, w);
  }

  lemma CellParses(ymd: Ymd, t: Token, c: char)
    requires Fits(ymd) && IsSeparator(c)
    ensures c !in Cell(ymd, t)
    ensures ParseIntNoRadix(Cell(ymd, t)) == ValueOf(ymd, t)
  {
    var v := ValueOf(ymd, t);
    if v.None? {
      PlaceholderParses(t);
      TokenTextNoSeparator(t, c);
    } else {
      PowersOfTen();
      NumberCellParses(v.value, |TokenText(t)|, c);
    }
  }

  /**
   * Round trip: for a valid pattern, serialising segment values that fit
   * their placeholders (not all empty) and decomposing the result gives the
   * same values back; an empty segment travels as its placeholder.
   */
  lemma DecomposeSerialize(ymd: Ymd, pattern: string)
    requires IsValidPattern(pattern)
    requires Fits(ymd) && !(ymd.year.None? && ymd.month.None? && ymd.day.None?)
    ensures DecomposeSpec(Serialize(ymd, pattern), pattern) == Some(ymd)
  {
    var m := MatchPattern(pattern).value;
    RoundTripWith(ymd, m);
  }

  /** The round trip for one match with distinct tokens. */
  lemma RoundTripWith(ymd: Ymd, m: PatternMatch)
    requires m.t1 != m.t2 && m.t2 != m.t3 && m.t1 != m.t3 && IsSeparator(m.sep)
    requires Fits(ymd) && !(ymd.year.None? && ymd.month.None? && ymd.day.None?)
    ensures FieldsOf(m, Split(SerializeWith(ymd, m), m.sep)) == ymd
  {
    Covers(m, YYYY);
    Covers(m, MM);
    Covers(m, DD);
    CellsSplit(ymd, m);
    var texts := [Cell(ymd, m.t1), Cell(ymd, m.t2), Cell(ymd, m.t3)];
    FieldOfDistinct(m, texts, ymd, YYYY);
    FieldOfDistinct(m, texts, ymd, MM);
    FieldOfDistinct(m, texts, ymd, DD);
  }

  /** Three distinct tokens are all three tokens. */
  lemma Covers(m: PatternMatch, t: Token)
    requires m.t1 != m.t2 && m.t2 != m.t3 && m.t1 != m.t3
    ensures m.t1 == t || m.t2 == t || m.t3 == t
  {
  }

  /** The joined cells split back into the cells, each of which parses to its segment's value. */
  lemma CellsSplit(ymd: Ymd, m: PatternMatch)
    requires Fits(ymd) && IsSeparator(m.sep)
    ensures var texts := [Cell(ymd, m.t1), Cell(ymd, m.t2), Cell(ymd, m.t3)];
            Split(Join(texts, m.sep), m.sep) == texts &&
            ParseIntNoRadix(texts[0]) == ValueOf(ymd, m.t1) &&
            ParseIntNoRadix(texts[1]) == ValueOf(ymd, m.t2) &&
            ParseIntNoRadix(texts[2]) == ValueOf(ymd, m.t3)
  {
    CellParses(ymd, m.t1, m.sep);
    CellParses(ymd, m.t2, m.sep);
    CellParses(ymd, m.t3, m.sep);
    JoinSplitThree(Cell(ymd, m.t1), Cell(ymd, m.t2), Cell(ymd, m.t3), m.sep);
  }

  lemma JoinSplitThree(a: string, b: string, c: string, sep: char)
    requires sep !in a && sep !in b && sep !in c
    ensures Split(Join([a, b, c], sep), sep) == [a, b, c]
  {
    JoinSplit([a, b, c], sep);
  }

  lemma FieldOfDistinct(m: PatternMatch, parts: seq<string>, ymd: Ymd, t: Token)
    requires m.t1 != m.t2 && m.t2 != m.t3 && m.t1 != m.t3 && |parts| == 3
    requires ParseIntNoRadix(parts[0]) == ValueOf(ymd, m.t1)
    requires ParseIntNoRadix(parts[1]) == ValueOf(ymd, m.t2)
    requires ParseIntNoRadix(parts[2]) == ValueOf(ymd, m.t3)
    ensures FieldOf(m, t, parts) == ValueOf(ymd, t)
  {
    Covers(m, t);
  }

  /** The string side of the round trip: such a string is reproduced by decomposing and serialising again. */
  lemma SerializeDecompose(ymd: Ymd, pattern: string)
    requires IsValidPattern(pattern)
    requires Fits(ymd) && !(ymd.year.None? && ymd.month.None? && ymd.day.None?)
    ensures var s := Serialize(ymd, pattern);
            DecomposeSpec(s, pattern).Some? && Serialize(DecomposeSpec(s, pattern).value, pattern) == s
  {
    DecomposeSerialize(ymd, pattern);
  }

  /** No values at all, or an unmatched pattern, serialise to "". */
  lemma SerializeEmpty(ymd: Ymd, pattern: string)
    requires ymd == Ymd(None, None, None) || MatchPattern(pattern).None?
    ensures Serialize(ymd, pattern) == ""
  {
    var m := MatchPattern(pattern);
    if m.Some? {
      NothingSerialized(ymd, m.value);
    }
  }

  lemma NothingSerialized(ymd: Ymd, m: PatternMatch)
    requires ymd == Ymd(None, None, None)
    ensures SerializeWith(ymd, m) == ""
  {
  }

  // ---------------------------------------------------------------------------
  // Properties: segment changes
  // ---------------------------------------------------------------------------

  /** After any change the day fits the month, and the segments not edited keep their values (the day only shrinks). */
  lemma ApplyDateChangeProperties(ymd: Ymd, t: Token, num: Option<int>)
    ensures var r := ApplyDateChange(ymd, t, num);
            DayFits(r) &&
            (t != YYYY ==> r.year == ymd.year) && (t != MM ==> r.month == ymd.month) &&
            (t == YYYY ==> r.year == num) && (t == MM ==> r.month == num) &&
            (t != DD && ymd.day.Some? ==> r.day.Some? && r.day.value <= ymd.day.value) &&
            (t == DD && num.Some? ==> r.day.Some? && r.day.value <= num.value)
  {
  }

  /** The clamp leaves a fitting day alone. */
  lemma ApplyDateChangeKeepsFittingDay(ymd: Ymd, t: Token, num: Option<int>)
    requires t != DD
    requires DayFits(ApplyDateChange(ymd, t, num).(day := ymd.day))
    ensures ApplyDateChange(ymd, t, num).day == ymd.day
  {
  }

  /** Applying the same change twice is applying it once. */
  lemma ApplyDateChangeIdempotent(ymd: Ymd, t: Token, num: Option<int>)
    ensures ApplyDateChange(ApplyDateChange(ymd, t, num), t, num) == ApplyDateChange(ymd, t, num)
  {
  }

  /** The day segment's maximum is the Gregorian length of the selected month. */
  lemma DaySegmentBound(ymd: Ymd)
    requires ymd.month.Some? && ymd.year.Some? && 1 <= ymd.month.value <= 12 && ymd.year.value >= 1
    ensures SegmentFor(ymd, DD).max == Gregorian.MonthLength(ymd.year.value, ymd.month.value)
  {
    Utils.DaysInMonthGregorian(ymd.month.value, ymd.year.value);
  }

  /**
   * The clamping case: from 31 January 2023, setting the month to 2 gives
   * 28 February 2023, yet the notified string is that of 31 January (whatever
   * the valid pattern), not the string of the new state.
   */
  lemma StaleDateNotice(pattern: string)
    requires IsValidPattern(pattern)
    ensures var before := Ymd(Some(2023), Some(1), Some(31));
            var after := ApplyDateChange(before, MM, Some(2));
            after == Ymd(Some(2023), Some(2), Some(28)) &&
            DecomposeSpec(Serialize(before, pattern), pattern) == Some(before) &&
            DecomposeSpec(NotifiedAfterChange(before, pattern, MM, Some(2)).value, pattern) == Some(after) &&
            Serialize(before, pattern) != NotifiedAfterChange(before, pattern, MM, Some(2)).value
  {
    var before := Ymd(Some(2023), Some(1), Some(31));
    var after := Ymd(Some(2023), Some(2), Some(28));
    Utils.DaysInMonthGregorian(2, 2023);
    assert ApplyDateChange(before, MM, Some(2)) == after;
    DecomposeSerialize(before, pattern);
    DecomposeSerialize(after, pattern);
  }

  /** The reported string, taken after the change, always decomposes to the new state. */
  lemma NotifiedAfterChangeDecomposes(ymd: Ymd, pattern: string, t: Token, num: Option<int>)
    requires IsValidPattern(pattern)
    requires var r := ApplyDateChange(ymd, t, num); Fits(r) && !(r.year.None? && r.month.None? && r.day.None?)
    ensures DecomposeSpec(NotifiedAfterChange(ymd, pattern, t, num).value, pattern) == Some(ApplyDateChange(ymd, t, num))
  {
    DecomposeSerialize(ApplyDateChange(ymd, t, num), pattern);
  }
}
