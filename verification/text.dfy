/**
 * The JavaScript built-ins the components lean on, written out over
 * `string` (a sequence of UTF-16 code units is approximated by `seq<char>`):
 * `String(n)` for integers, `Number.parseInt(s, 10)`, `String.prototype.split`
 * and `Array.prototype.join` with a one-character separator,
 * `padStart(w, "0")` and `replace(/\D/g, "")`.
 */
module Text {

  datatype Option<+T> = None | Some(value: T)

  predicate IsDigit(c: char) { '0' <= c <= '9' }

  predicate AllDigits(s: string) { forall i :: 0 <= i < |s| ==> IsDigit(s[i]) }

  function DigitValue(c: char): (d: nat)
    requires IsDigit(c)
    ensures d < 10
  {
    c as int - '0' as int
  }

  function DigitChar(d: nat): (c: char)
    requires d < 10
    ensures IsDigit(c) && DigitValue(c) == d
  {
    ('0' as int + d) as char
  }

  /** `Math.max` on two integers. */
  function Max(a: int, b: int): int { if a >= b then a else b }

  /** `Math.min` on two integers. */
  function Min(a: int, b: int): int { if a <= b then a else b }

  /** JavaScript's `%`, whose result takes the sign of the dividend. */
  function JsRem(a: int, b: int): (r: int)
    requires b > 0
    ensures a >= 0 ==> r == a % b
    ensures -b < r < b && (a < 0 ==> r <= 0)
    ensures (a - r) % b == 0
  {
    if a >= 0 then
      MultipleRem(a - a % b, b, a / b);
      a % b
    else
      TruncatedRem(a, b);
      -((-a) % b)
  }

  /** For a negative dividend, the negated remainder of `-a` differs from `a` by a multiple of `b`. */
  lemma TruncatedRem(a: int, b: int)
    requires a < 0 && b > 0
    ensures (a + (-a) % b) % b == 0
  {
    var n, q, m := -a, (-a) / b, (-a) % b;
    assert n == q * b + m;
    assert a + m == (-q) * b;
    MultipleRem(a + m, b, -q);
  }

  /** A multiple of `b` leaves no remainder. */
  lemma MultipleRem(x: int, b: int, q: int)
    requires b > 0 && x == q * b
    ensures x % b == 0
  {
    var d := q - x / b;
    assert d * b == x % b;
  }

  /** The white space that `parseInt` skips: ECMAScript's WhiteSpace and LineTerminator code points. */
  predicate IsJsWhitespace(c: char) {
    var k := c as int;
    k == 0x09 || k == 0x0A || k == 0x0B || k == 0x0C || k == 0x0D || k == 0x20 ||
    k == 0xA0 || k == 0x1680 || (0x2000 <= k <= 0x200A) || k == 0x2028 || k == 0x2029 ||
    k == 0x202F || k == 0x205F || k == 0x3000 || k == 0xFEFF
  }

  /** `String(n)` for a non-negative integer: its decimal digits, no leading zero. */
  function NatToString(n: nat): (s: string)
    ensures 1 <= |s| && AllDigits(s)
    ensures |s| > 1 ==> s[0] != '0'
    decreases n
  {
    if n < 10 then [DigitChar(n)] else NatToString(n / 10) + [DigitChar(n % 10)]
  }

  /** `String(n)` for any integer. */
  function IntToString(n: int): string {
    if n < 0 then "-" + NatToString(-n) else NatToString(n)
  }

  /** The number a string of decimal digits denotes (most significant first). */
  function DigitsValue(s: string): nat
    requires AllDigits(s)
    decreases |s|
  {
    if s == [] then 0 else DigitsValue(s[..|s| - 1]) * 10 + DigitValue(s[|s| - 1])
  }

  /** `s.replace(/\D/g, "")`: the decimal digits of `s`, in order. */
  function DigitsOnly(s: string): (r: string)
    ensures AllDigits(r) && |r| <= |s|
    ensures forall i :: 0 <= i < |s| && IsDigit(s[i]) ==> s[i] in r
    ensures AllDigits(s) ==> r == s
    decreases |s|
  {
    if s == [] then [] else if IsDigit(s[0]) then [s[0]] + DigitsOnly(s[1..]) else DigitsOnly(s[1..])
  }

  /** The filter works character by character: a single character is kept exactly when it is a digit. */
  lemma DigitsOnlySingle(c: char)
    ensures DigitsOnly([c]) == if IsDigit(c) then [c] else []
  {
    assert [c][1..] == [];
  }

  /** Filtering a concatenation filters each part, so every digit is kept, in order, and nothing else. */
  lemma {:induction false} DigitsOnlyAppend(a: string, b: string)
    ensures DigitsOnly(a + b) == DigitsOnly(a) + DigitsOnly(b)
    decreases |a|
  {
    if a != [] {
      assert (a + b)[0] == a[0] && (a + b)[1..] == a[1..] + b;
      DigitsOnlyAppend(a[1..], b);
    } else {
      assert a + b == b;
    }
  }

  /** `parseInt`'s skipping of leading white space: what is dropped is white space, and what is left does not start with any. */
  function TrimStart(s: string): (r: string)
    ensures |r| <= |s| && r == s[|s| - |r|..]
    ensures forall k :: 0 <= k < |s| - |r| ==> IsJsWhitespace(s[k])
    ensures r != [] ==> !IsJsWhitespace(r[0])
    decreases |s|
  {
    if s != [] && IsJsWhitespace(s[0]) then TrimStart(s[1..]) else s
  }

  /** The length of the longest prefix of `s` made of decimal digits. */
  function DigitPrefixLength(s: string): (k: nat)
    ensures k <= |s| && AllDigits(s[..k])
    ensures k < |s| ==> !IsDigit(s[k])
    decreases |s|
  {
    if s != [] && IsDigit(s[0]) then
      var k := 1 + DigitPrefixLength(s[1..]);
      assert s[..k] == [s[0]] + s[1..][..k - 1];
      k
    else 0
  }

  /**
   * `Number.parseInt(s, 10)` on an integer-valued result: leading white space
   * is skipped, one sign is accepted, and the longest run of digits that
   * follows is read; `None` stands for `NaN` (no digit there).
   */
  function ParseInt(s: string): (r: Option<int>)
    ensures s == [] ==> r == None
  {
    var t := TrimStart(s);
    var negative := t != [] && t[0] == '-';
    var u := if t != [] && (t[0] == '-' || t[0] == '+') then t[1..] else t;
    var k := DigitPrefixLength(u);
    if k == 0 then None
    else
      var magnitude: int := DigitsValue(u[..k]);
      Some(if negative then -magnitude else magnitude)
  }

  predicate IsHexDigit(c: char) { IsDigit(c) || 'a' <= c <= 'f' || 'A' <= c <= 'F' }

  function HexDigitValue(c: char): (d: nat)
    requires IsHexDigit(c)
    ensures d < 16
  {
    if IsDigit(c) then DigitValue(c)
    else if 'a' <= c <= 'f' then c as int - 'a' as int + 10
    else c as int - 'A' as int + 10
  }

  predicate AllHexDigits(s: string) { forall i :: 0 <= i < |s| ==> IsHexDigit(s[i]) }

  /** The number a string of hexadecimal digits denotes (most significant first). */
  function HexDigitsValue(s: string): nat
    requires AllHexDigits(s)
    decreases |s|
  {
    if s == [] then 0 else HexDigitsValue(s[..|s| - 1]) * 16 + HexDigitValue(s[|s| - 1])
  }

  /** The length of the longest prefix of `s` made of hexadecimal digits. */
  function HexPrefixLength(s: string): (k: nat)
    ensures k <= |s| && AllHexDigits(s[..k])
    ensures k < |s| ==> !IsHexDigit(s[k])
    decreases |s|
  {
    if s != [] && IsHexDigit(s[0]) then
      var k := 1 + HexPrefixLength(s[1..]);
      assert s[..k] == [s[0]] + s[1..][..k - 1];
      k
    else 0
  }

  /** `0x` or `0X`: the prefix that makes `parseInt` without a radix read base 16. */
  predicate HasHexPrefix(u: string) { |u| >= 2 && u[0] == '0' && (u[1] == 'x' || u[1] == 'X') }

  /**
   * `Number.parseInt(s)` with no radix: as `parseInt(s, 10)`, except that
   * after the white space and the sign a `0x`/`0X` prefix switches to base 16
   * (and `NaN` when no hexadecimal digit follows it).
   */
  function ParseIntNoRadix(s: string): (r: Option<int>)
    ensures s == [] ==> r == None
  {
    var t := TrimStart(s);
    var negative := t != [] && t[0] == '-';
    var u := if t != [] && (t[0] == '-' || t[0] == '+') then t[1..] else t;
    if HasHexPrefix(u) then
      var h := u[2..];
      var k := HexPrefixLength(h);
      if k == 0 then None
      else
        var magnitude: int := HexDigitsValue(h[..k]);
        Some(if negative then -magnitude else magnitude)
    else ParseInt(s)
  }

  /** `Number.parseInt(parts[i])`; `parseInt(undefined)`, as when an index runs past the end of a `split` result, is `NaN`. */
  function ParseIntAt(parts: seq<string>, i: nat): Option<int> {
    if i < |parts| then ParseIntNoRadix(parts[i]) else None
  }

  /** `s.padStart(width, "0")`. */
  function PadStartZero(s: string, width: int): (r: string)
    ensures |s| >= width ==> r == s
    ensures |s| < width ==> |r| == width
    ensures |s| <= |r| && r[|r| - |s|..] == s
    ensures forall i :: 0 <= i < |r| - |s| ==> r[i] == '0'
  {
    if |s| >= width then s else seq(width - |s|, _ => '0') + s
  }

  /** `Array.prototype.reverse`, as a value. */
  function Reverse<T>(s: seq<T>): (r: seq<T>)
    ensures |r| == |s| && forall i :: 0 <= i < |s| ==> r[i] == s[|s| - 1 - i]
    decreases |s|
  {
    if s == [] then [] else Reverse(s[1..]) + [s[0]]
  }

  /** `s.split(c)` for a one-character separator. */
  function Split(s: string, c: char): (parts: seq<string>)
    ensures |parts| >= 1
    ensures forall i :: 0 <= i < |parts| ==> c !in parts[i]
    decreases |s|
  {
    if s == [] then [""]
    else
      var rest := Split(s[1..], c);
      if s[0] == c then [""] + rest else [[s[0]] + rest[0]] + rest[1..]
  }

  /** `parts.join(c)` for a one-character separator. */
  function Join(parts: seq<string>, c: char): string
    decreases |parts|
  {
    if parts == [] then ""
    else if |parts| == 1 then parts[0]
    else parts[0] + [c] + Join(parts[1..], c)
  }

  // ---------------------------------------------------------------------------
  // Properties
  // ---------------------------------------------------------------------------

  lemma {:induction false} DigitsValueAppend(s: string, c: char)
    requires AllDigits(s) && IsDigit(c)
    ensures AllDigits(s + [c]) && DigitsValue(s + [c]) == DigitsValue(s) * 10 + DigitValue(c)
  {
    assert (s + [c])[..|s + [c]| - 1] == s;
  }

  /** Decimal printing and digit reading are inverse. */
  lemma {:induction false} NatToStringValue(n: nat)
    ensures DigitsValue(NatToString(n)) == n
    decreases n
  {
    if n < 10 {
      assert NatToString(n)[..0] == [];
    } else {
      NatToStringValue(n / 10);
      DigitsValueAppend(NatToString(n / 10), DigitChar(n % 10));
    }
  }

  /** Zeros in front of a digit string do not change the number it denotes. */
  lemma {:induction false} LeadingZerosValue(z: nat, s: string)
    requires AllDigits(s)
    ensures AllDigits(seq(z, _ => '0') + s)
    ensures DigitsValue(seq(z, _ => '0') + s) == DigitsValue(s)
    decreases |s|
  {
    var zs: string := seq(z, _ => '0');
    if s == [] {
      assert zs + s == zs;
      ZerosValue(z);
    } else {
      var init := s[..|s| - 1];
      LeadingZerosValue(z, init);
      assert zs + s == (zs + init) + [s[|s| - 1]];
      DigitsValueAppend(zs + init, s[|s| - 1]);
      DigitsValueAppend(init, s[|s| - 1]);
      assert s == init + [s[|s| - 1]];
    }
  }

  lemma {:induction false} ZerosValue(z: nat)
    ensures AllDigits(seq(z, _ => '0')) && DigitsValue(seq(z, _ => '0')) == 0
    decreases z
  {
    if z > 0 {
      var zs: string := seq(z, _ => '0');
      assert zs[..z - 1] == seq(z - 1, _ => '0');
      ZerosValue(z - 1);
    }
  }

  lemma {:induction false} DigitPrefixOfDigits(s: string)
    requires AllDigits(s)
    ensures DigitPrefixLength(s) == |s|
    decreases |s|
  {
    if s != [] {
      DigitPrefixOfDigits(s[1..]);
    }
  }

  /** `parseInt` reads back any non-empty digit string, leading zeros included. */
  lemma ParseIntDigits(s: string)
    requires s != [] && AllDigits(s)
    ensures ParseInt(s) == Some(DigitsValue(s))
  {
    assert !IsJsWhitespace(s[0]);
    assert TrimStart(s) == s;
    DigitPrefixOfDigits(s);
    assert s[..|s|] == s;
  }

  /** Without a radix, a string of decimal digits is still read in base 10: its second digit is no `x`. */
  lemma NoRadixDecimal(s: string)
    requires s != [] && AllDigits(s)
    ensures ParseIntNoRadix(s) == ParseInt(s)
  {
    assert !IsJsWhitespace(s[0]);
    assert TrimStart(s) == s;
  }

  /** Without a radix, a decimal digit string reads back as its value, leading zeros included. */
  lemma NoRadixDigits(s: string)
    requires s != [] && AllDigits(s)
    ensures ParseIntNoRadix(s) == Some(DigitsValue(s))
  {
    NoRadixDecimal(s);
    ParseIntDigits(s);
  }

  /** Without a radix, a string that starts with a non-digit, non-sign, non-space is `NaN` too. */
  lemma NoRadixNonNumeric(s: string)
    requires s != [] && !IsDigit(s[0]) && !IsJsWhitespace(s[0]) && s[0] != '-' && s[0] != '+'
    ensures ParseIntNoRadix(s) == None
  {
    ParseIntNonNumeric(s);
  }

  /** A `0x` prefix is read as hexadecimal without a radix and as the number 0 in base 10. */
  lemma HexPrefixRead()
    ensures ParseIntNoRadix("0x1F") == Some(31)
    ensures ParseInt("0x1F") == Some(0)
  {
    var s := "0x1F";
    assert s[2..] == "1F";
    HexBranch(s);
    OneF(s[2..]);
    ZeroThenX(s);
  }

  /** Without a radix, a string that starts with `0x` reads the hexadecimal digits after it. */
  lemma HexBranch(s: string)
    requires |s| >= 2 && s[0] == '0' && s[1] == 'x'
    ensures var k := HexPrefixLength(s[2..]);
            ParseIntNoRadix(s) == if k == 0 then None else Some(HexDigitsValue(s[2..][..k]))
  {
    assert !IsJsWhitespace(s[0]);
    assert TrimStart(s) == s;
  }

  /** In base 10, a string that starts with `0x` reads as 0. */
  lemma ZeroThenX(s: string)
    requires |s| >= 2 && s[0] == '0' && s[1] == 'x'
    ensures ParseInt(s) == Some(0)
  {
    assert !IsJsWhitespace(s[0]);
    assert TrimStart(s) == s;
    assert s[1..][0] == 'x';
    assert DigitPrefixLength(s) == 1;
    var d := s[..1];
    assert d == ['0'] && d[..0] == [];
    assert DigitsValue(d) == 0;
  }

  lemma OneF(h: string)
    requires h == "1F"
    ensures HexPrefixLength(h) == 2 && HexDigitsValue(h[..2]) == 31
  {
    assert h[1..][1..] == [];
    var one := h[..2][..1];
    assert h[..2] == h && one == ['1'] && one[..0] == [];
    assert HexDigitsValue(one) == 1;
  }

  /** `parseInt` of a string that starts with a letter (or any other non-digit, non-sign, non-space) is `NaN`. */
  lemma ParseIntNonNumeric(s: string)
    requires s != [] && !IsDigit(s[0]) && !IsJsWhitespace(s[0]) && s[0] != '-' && s[0] != '+'
    ensures ParseInt(s) == None
  {
  }

  lemma {:induction false} SplitJoin(s: string, c: char)
    ensures Join(Split(s, c), c) == s
    decreases |s|
  {
    if s != [] {
      SplitJoin(s[1..], c);
      var rest := Split(s[1..], c);
      if s[0] == c {
        assert Split(s, c) == [""] + rest;
        assert Join([""] + rest, c) == "" + [c] + Join(rest, c);
      } else {
        if |rest| == 1 {
          assert Join(rest, c) == rest[0];
        } else {
          assert Join(rest, c) == rest[0] + [c] + Join(rest[1..], c);
          assert ([[s[0]] + rest[0]] + rest[1..])[1..] == rest[1..];
        }
      }
    }
  }

  /** Splitting a join of separator-free parts gives the parts back. */
  lemma {:induction false} JoinSplit(parts: seq<string>, c: char)
    requires |parts| >= 1
    requires forall i :: 0 <= i < |parts| ==> c !in parts[i]
    ensures Split(Join(parts, c), c) == parts
    decreases |parts|
  {
    if |parts| == 1 {
      SplitNoSeparator(parts[0], c);
    } else {
      JoinSplit(parts[1..], c);
      SplitPrefix(parts[0], Join(parts[1..], c), c);
      assert Join(parts, c) == parts[0] + [c] + Join(parts[1..], c);
      assert parts == [parts[0]] + parts[1..];
    }
  }

  lemma {:induction false} SplitNoSeparator(s: string, c: char)
    requires c !in s
    ensures Split(s, c) == [s]
    decreases |s|
  {
    if s != [] {
      assert c !in s[1..] by {
        forall i | 0 <= i < |s[1..]| ensures s[1..][i] != c { assert s[1..][i] == s[i + 1]; }
      }
      SplitNoSeparator(s[1..], c);
      assert [s[0]] + s[1..] == s;
    }
  }

  lemma {:induction false} SplitPrefix(p: string, t: string, c: char)
    requires c !in p
    ensures Split(p + [c] + t, c) == [p] + Split(t, c)
    decreases |p|
  {
    if p == [] {
      assert p + [c] + t == [c] + t;
      assert ([c] + t)[1..] == t;
    } else {
      assert c !in p[1..] by {
        forall i | 0 <= i < |p[1..]| ensures p[1..][i] != c { assert p[1..][i] == p[i + 1]; }
      }
      SplitPrefix(p[1..], t, c);
      assert (p + [c] + t)[1..] == p[1..] + [c] + t;
      assert [p[0]] + p[1..] == p;
    }
  }
}
