/**
 * The few JavaScript built-ins the form and marks logic relies on, written out
 * as definitions: the whitespace class shared by `String.prototype.trim` and the
 * regular-expression escape `\s`, `trim` itself, the global `parseInt` called
 * without a radix, and the conversion of an integral Number to its decimal
 * string.
 */
module JsBuiltins {

  /** WhiteSpace and LineTerminator code points of ECMA-262 (section 12.2 and 12.3);
      `trim`, `parseInt` and the regular-expression class `\s` all use this set. */
  predicate IsWhitespace(c: char)
  {
    var n := c as int;
    n == 0x09 || n == 0x0A || n == 0x0B || n == 0x0C || n == 0x0D || n == 0x20 ||
    n == 0xA0 || n == 0x1680 || (0x2000 <= n <= 0x200A) || n == 0x2028 || n == 0x2029 ||
    n == 0x202F || n == 0x205F || n == 0x3000 || n == 0xFEFF
  }

  /** The regular-expression class `\d`: ASCII digits only. */
  predicate IsDecimalDigit(c: char)
  {
    '0' <= c <= '9'
  }

  predicate IsHexDigit(c: char)
  {
    IsDecimalDigit(c) || 'a' <= c <= 'f' || 'A' <= c <= 'F'
  }

  predicate AllWhitespace(s: string)
  {
    forall i :: 0 <= i < |s| ==> IsWhitespace(s[i])
  }

  /** Removes leading whitespace; the result is the longest suffix that does not start with whitespace. */
  function TrimStart(s: string): (r: string)
    ensures |r| <= |s| && r == s[|s| - |r|..]
    ensures forall i :: 0 <= i < |s| - |r| ==> IsWhitespace(s[i])
    ensures r == [] || !IsWhitespace(r[0])
  {
    if s != [] && IsWhitespace(s[0]) then TrimStart(s[1..]) else s
  }

  /** Removes trailing whitespace; the result is the longest prefix that does not end with whitespace. */
  function TrimEnd(s: string): (r: string)
    ensures |r| <= |s| && r == s[..|r|]
    ensures forall i :: |r| <= i < |s| ==> IsWhitespace(s[i])
    ensures r == [] || !IsWhitespace(r[|r| - 1])
  {
    if s != [] && IsWhitespace(s[|s| - 1]) then TrimEnd(s[..|s| - 1]) else s
  }

  /** `String.prototype.trim`: the result is a slice of `s` that neither starts nor
      ends with whitespace. */
  function Trim(s: string): (r: string)
    ensures |r| <= |s|
    ensures r != [] ==> !IsWhitespace(r[0]) && !IsWhitespace(r[|r| - 1])
  {
    TrimBothEnds(s);
    TrimEnd(TrimStart(s))
  }

  /** A string trims to "" exactly when it is all whitespace. */
  lemma TrimEmptyIffAllWhitespace(s: string)
    ensures Trim(s) == [] <==> AllWhitespace(s)
  {
    TrimBothEnds(s);
  }

  /** `s.trim()` is a contiguous slice of `s`, and only whitespace lies on either side of it. */
  lemma TrimIsSlice(s: string)
    ensures exists a | 0 <= a <= |s| - |Trim(s)| ::
      Trim(s) == s[a..a + |Trim(s)|] && AllWhitespace(s[..a]) && AllWhitespace(s[a + |Trim(s)|..])
  {
    var a := TrimSliceStart(s);
  }

  /** Where the slice `s.trim()` starts: after the leading whitespace. */
  lemma TrimSliceStart(s: string) returns (a: nat)
    ensures a <= |s| - |Trim(s)|
    ensures Trim(s) == s[a..a + |Trim(s)|]
    ensures AllWhitespace(s[..a]) && AllWhitespace(s[a + |Trim(s)|..])
  {
    var t := TrimStart(s);
    var r := TrimEnd(t);
    a := |s| - |t|;
    TrimStartDropsWhitespace(s);
    TrimEndDropsWhitespace(t);
    SuffixOfSuffix(s, t, r);
  }

  /** Slicing a prefix `r` of a suffix `t` of `s` is slicing `s` itself. */
  lemma SuffixOfSuffix(s: string, t: string, r: string)
    requires |t| <= |s| && t == s[|s| - |t|..]
    requires |r| <= |t| && r == t[..|r|]
    ensures r == s[|s| - |t|..|s| - |t| + |r|]
    ensures t[|r|..] == s[|s| - |t| + |r|..]
  {
  }

  lemma TrimStartDropsWhitespace(s: string)
    ensures AllWhitespace(s[..|s| - |TrimStart(s)|])
  {
    var head := s[..|s| - |TrimStart(s)|];
    forall i | 0 <= i < |head| ensures IsWhitespace(head[i]) {
      assert head[i] == s[i];
    }
  }

  lemma TrimEndDropsWhitespace(t: string)
    ensures AllWhitespace(t[|TrimEnd(t)|..])
  {
    var tail := t[|TrimEnd(t)|..];
    forall i | 0 <= i < |tail| ensures IsWhitespace(tail[i]) {
      assert tail[i] == t[|TrimEnd(t)| + i];
    }
  }

  lemma {:induction false} TrimBothEnds(s: string)
    ensures TrimEnd(TrimStart(s)) == [] <==> AllWhitespace(s)
    ensures TrimEnd(TrimStart(s)) != [] ==> !IsWhitespace(TrimEnd(TrimStart(s))[0])
  {
    var t := TrimStart(s);
    var r := TrimEnd(t);
    if t != [] {
      TrimEndKeepsFirst(t);
      assert s[|s| - |t|] == t[0];
    }
  }

  /** Trimming the end of a string that starts with a non-whitespace character keeps that character. */
  lemma {:induction false} TrimEndKeepsFirst(t: string)
    requires t != [] && !IsWhitespace(t[0])
    ensures TrimEnd(t) != [] && TrimEnd(t)[0] == t[0]
  {
  }

  /** What `parseInt` yields: NaN, or an integral Number. */
  datatype ParseResult = NaN | Int(value: int)

  function DigitValue(c: char): nat
  {
    if '0' <= c <= '9' then c as int - '0' as int
    else if 'a' <= c <= 'f' then c as int - 'a' as int + 10
    else if 'A' <= c <= 'F' then c as int - 'A' as int + 10
    else 0
  }

  predicate IsRadixDigit(c: char, hex: bool)
  {
    if hex then IsHexDigit(c) else IsDecimalDigit(c)
  }

  /** The longest prefix of `s` made of digits of the radix. */
  function DigitRun(s: string, hex: bool): (r: string)
    ensures |r| <= |s| && r == s[..|r|]
    ensures forall i :: 0 <= i < |r| ==> IsRadixDigit(r[i], hex)
    ensures |r| == |s| || !IsRadixDigit(s[|r|], hex)
  {
    if s != [] && IsRadixDigit(s[0], hex) then [s[0]] + DigitRun(s[1..], hex) else []
  }

  /** The value of a digit string read in radix 16 (`hex`) or 10. */
  function DigitsValue(z: string, hex: bool): nat
  {
    if z == [] then 0
    else DigitsValue(z[..|z| - 1], hex) * (if hex then 16 else 10) + DigitValue(z[|z| - 1])
  }

  /** The "0x"/"0X" prefix that switches `parseInt` to radix 16. */
  predicate HasHexPrefix(u: string)
  {
    |u| >= 2 && u[0] == '0' && (u[1] == 'x' || u[1] == 'X')
  }

  /** The global `parseInt(s)` with no radix (ECMA-262 section 19.2.5): leading whitespace
      is skipped and one sign is read; the rest is read by `ParseUnsigned`. */
  function ParseInt(s: string): ParseResult
  {
    var t := TrimStart(s);
    var negative := t != [] && t[0] == '-';
    ParseUnsigned(if t != [] && (t[0] == '-' || t[0] == '+') then t[1..] else t, negative)
  }

  /** After the sign: a "0x"/"0X" prefix selects radix 16, the longest run of digits that
      follows is the magnitude, and no digits at all gives NaN. */
  function ParseUnsigned(unsigned: string, negative: bool): ParseResult
  {
    var hex := HasHexPrefix(unsigned);
    var digits := DigitRun(if hex then unsigned[2..] else unsigned, hex);
    var magnitude: int := DigitsValue(digits, hex);
    if digits == [] then NaN
    else if negative then Int(-magnitude)
    else Int(magnitude)
  }

  function DecimalDigit(d: nat): (c: char)
    requires d < 10
    ensures IsDecimalDigit(c) && DigitValue(c) == d
  {
    ('0' as int + d) as char
  }

  /** Decimal digits of a natural number, most significant first, no leading zeros. */
  function NatToDecimal(n: nat): (r: string)
    ensures r != []
    ensures forall i :: 0 <= i < |r| ==> IsDecimalDigit(r[i])
    ensures n >= 10 ==> r[0] != '0'
  {
    if n < 10 then [DecimalDigit(n)] else NatToDecimal(n / 10) + [DecimalDigit(n % 10)]
  }

  /** `String(n)` for an integral Number n (ECMA-262 section 6.1.6.1.20), for magnitudes
      below 10^21, where no exponent is used. */
  function IntToString(n: int): (r: string)
    ensures r != [] && (r[0] == '-' <==> n < 0)
  {
    if n < 0 then "-" + NatToDecimal(-n) else NatToDecimal(n)
  }

  /** After the sign, if any, `String(n)` is made of ASCII digits. */
  lemma IntToStringDigits(n: int)
    ensures forall i :: (if n < 0 then 1 else 0) <= i < |IntToString(n)| ==> IsDecimalDigit(IntToString(n)[i])
  {
  }

  lemma {:induction false} DigitsValueOfDecimal(n: nat)
    ensures DigitsValue(NatToDecimal(n), false) == n
  {
    if n >= 10 {
      var s := NatToDecimal(n);
      assert s[..|s| - 1] == NatToDecimal(n / 10);
      DigitsValueOfDecimal(n / 10);
    }
  }

  /** The digit run of a digit string followed by a non-digit is that digit string. */
  lemma {:induction false} DigitRunOfDigits(s: string, rest: string)
    requires forall i :: 0 <= i < |s| ==> IsDecimalDigit(s[i])
    requires rest == [] || !IsDecimalDigit(rest[0])
    ensures DigitRun(s + rest, false) == s
  {
    if s == [] {
      assert s + rest == rest;
    } else {
      assert (s + rest)[1..] == s[1..] + rest;
      DigitRunOfDigits(s[1..], rest);
    }
  }

  /** `parseInt` reads back the decimal string of an integer, ignoring any tail that
      does not start with a digit or an 'x' ("85abc", "85.5" and "85" all read 85). */
  lemma ParseIntOfDecimalPrefix(n: int, rest: string)
    requires rest == [] || (!IsDecimalDigit(rest[0]) && rest[0] != 'x' && rest[0] != 'X')
    ensures ParseInt(IntToString(n) + rest) == Int(n)
  {
    var m: nat := if n < 0 then -n else n;
    var d := NatToDecimal(m);
    var s := IntToString(n) + rest;
    if n < 0 {
      assert s == ['-'] + (d + rest);
      ParseIntOfSigned(d + rest);
    } else {
      assert s == d + rest;
      ParseIntOfUnsigned(d + rest);
    }
    ParseUnsignedOfDecimalPrefix(m, rest, n < 0);
  }

  /** A leading '-' is read as the sign. */
  lemma ParseIntOfSigned(u: string)
    ensures ParseInt(['-'] + u) == ParseUnsigned(u, true)
  {
    var s := ['-'] + u;
    assert !IsWhitespace(s[0]);
    assert s[1..] == u;
  }

  /** A string that starts with a digit is read without a sign. */
  lemma ParseIntOfUnsigned(u: string)
    requires u != [] && IsDecimalDigit(u[0])
    ensures ParseInt(u) == ParseUnsigned(u, false)
  {
    assert !IsWhitespace(u[0]);
  }

  lemma ParseUnsignedOfDecimalPrefix(m: nat, rest: string, negative: bool)
    requires rest == [] || (!IsDecimalDigit(rest[0]) && rest[0] != 'x' && rest[0] != 'X')
    ensures ParseUnsigned(NatToDecimal(m) + rest, negative) == Int(if negative then -(m as int) else m)
  {
    var d := NatToDecimal(m);
    var unsigned := d + rest;
    assert !HasHexPrefix(unsigned) by {
      if |unsigned| >= 2 && |d| == 1 { assert unsigned[1] == rest[0]; }
      if |d| >= 2 { assert unsigned[1] == d[1]; }
    }
    DigitRunOfDigits(d, rest);
    DigitsValueOfDecimal(m);
  }

  /** `parseInt(String(n)) === n` for every integral n. */
  lemma ParseIntRoundTrip(n: int)
    ensures ParseInt(IntToString(n)) == Int(n)
  {
    assert IntToString(n) + [] == IntToString(n);
    ParseIntOfDecimalPrefix(n, []);
  }

  /** A string with no decimal digit in it parses to NaN (this includes "" and
      whitespace, and rules out a "0x" prefix, which needs a '0'). */
  lemma ParseIntWithoutDigits(s: string)
    requires forall i :: 0 <= i < |s| ==> !IsDecimalDigit(s[i])
    ensures ParseInt(s) == NaN
  {
    var t := TrimStart(s);
    assert t == s[|s| - |t|..];
    var unsigned := if t != [] && (t[0] == '-' || t[0] == '+') then t[1..] else t;
    assert unsigned == s[|s| - |unsigned|..];
    ParseUnsignedWithoutDigits(unsigned, t != [] && t[0] == '-');
  }

  /** `parseInt` finds nothing to read in `s`: after leading whitespace and at most one
      sign, the text does not start with a decimal digit, or it starts with "0x"/"0X"
      and no hex digit follows. */
  predicate NothingToRead(s: string)
  {
    var t := TrimStart(s);
    var u := if t != [] && (t[0] == '-' || t[0] == '+') then t[1..] else t;
    if HasHexPrefix(u) then |u| == 2 || !IsHexDigit(u[2])
    else u == [] || !IsDecimalDigit(u[0])
  }

  /** `parseInt(s)` is NaN exactly when there is nothing to read: ".5", "-.5", "abc85",
      "- 5" and "0x" are all NaN, though some contain a digit. */
  lemma ParseIntNaNIff(s: string)
    ensures ParseInt(s) == NaN <==> NothingToRead(s)
  {
    var t := TrimStart(s);
    var u := if t != [] && (t[0] == '-' || t[0] == '+') then t[1..] else t;
    ParseUnsignedNaNIff(u, t != [] && t[0] == '-');
  }

  lemma ParseUnsignedNaNIff(u: string, negative: bool)
    ensures ParseUnsigned(u, negative) == NaN <==>
      if HasHexPrefix(u) then |u| == 2 || !IsHexDigit(u[2]) else u == [] || !IsDecimalDigit(u[0])
  {
    if HasHexPrefix(u) {
      var d := DigitRun(u[2..], true);
      assert d != [] <==> |u| > 2 && IsHexDigit(u[2]) by {
        if d != [] { assert d[0] == u[2..][0]; }
        if |u| > 2 && IsHexDigit(u[2]) { assert IsRadixDigit(u[2..][0], true); }
      }
    } else {
      var d := DigitRun(u, false);
      assert d != [] <==> u != [] && IsDecimalDigit(u[0]) by {
        if d != [] { assert d[0] == u[0]; }
      }
    }
  }

  lemma ParseUnsignedWithoutDigits(unsigned: string, negative: bool)
    requires unsigned == [] || !IsDecimalDigit(unsigned[0])
    ensures ParseUnsigned(unsigned, negative) == NaN
  {
  }
}
