/** The PHP string built-ins the command relies on: trim(), the (int) cast of a
    string, and the decimal text of an integer when it is concatenated to a string. */
module PhpString {

  /** The characters trim() strips by default: space, tab, line feed, carriage
      return, NUL and vertical tab. */
  predicate IsTrimChar(c: char) {
    c == ' ' || c == '\t' || c == '\n' || c == '\r' || c == '\0' || c == '\U{0B}'
  }

  predicate IsDigit(c: char) {
    '0' <= c <= '9'
  }

  predicate AllTrimChars(s: string) {
    forall i :: 0 <= i < |s| ==> IsTrimChar(s[i])
  }

  predicate AllDigits(s: string) {
    forall i :: 0 <= i < |s| ==> IsDigit(s[i])
  }

  /** ltrim(): drops the trim characters at the front. */
  function TrimLeft(s: string): (r: string)
    ensures |r| <= |s|
    ensures r == [] || !IsTrimChar(r[0])
  {
    if |s| > 0 && IsTrimChar(s[0]) then TrimLeft(s[1..]) else s
  }

  /** rtrim(): drops the trim characters at the back. */
  function TrimRight(s: string): (r: string)
    ensures |r| <= |s| && r == s[..|r|]
    ensures r == [] || !IsTrimChar(r[|r| - 1])
  {
    if |s| > 0 && IsTrimChar(s[|s| - 1]) then TrimRight(s[..|s| - 1]) else s
  }

  /** trim(): the text between the trim characters at either end. */
  function Trim(s: string): (r: string)
    ensures r == [] || (!IsTrimChar(r[0]) && !IsTrimChar(r[|r| - 1]))
    ensures |r| <= |s|
  {
    TrimRight(TrimLeft(s))
  }

  /** The longest prefix of s made of decimal digits. */
  function LeadingDigits(s: string): (d: string)
    ensures |d| <= |s| && d == s[..|d|]
    ensures AllDigits(d)
    ensures |d| < |s| ==> !IsDigit(s[|d|])
  {
    if |s| > 0 && IsDigit(s[0]) then [s[0]] + LeadingDigits(s[1..]) else []
  }

  /** The number a string of decimal digits denotes. */
  function DigitsValue(d: string): nat
    requires AllDigits(d)
  {
    if d == [] then 0 else 10 * DigitsValue(d[..|d| - 1]) + (d[|d| - 1] as int - '0' as int)
  }

  /** True when s begins with a digit, or with a sign followed by a digit. */
  predicate StartsWithNumber(s: string) {
    (|s| > 0 && IsDigit(s[0])) || (|s| > 1 && (s[0] == '-' || s[0] == '+') && IsDigit(s[1]))
  }

  /** The (int) cast of a string: an optional sign and the digits after it; 0 when
      no digit follows. Integer overflow is not modelled. */
  function IntCast(s: string): (n: int)
    ensures n != 0 ==> StartsWithNumber(s)
    ensures n < 0 ==> s[0] == '-'
  {
    if |s| > 0 && (s[0] == '-' || s[0] == '+') then
      var v: int := DigitsValue(LeadingDigits(s[1..]));
      if s[0] == '-' then -v else v
    else
      DigitsValue(LeadingDigits(s))
  }

  function DigitChar(d: nat): (c: char)
    requires d < 10
    ensures IsDigit(c) && c as int - '0' as int == d
  {
    ('0' as int + d) as char
  }

  /** The decimal text of a non-negative integer, without leading zeros. */
  function NatToString(n: nat): (s: string)
    ensures |s| > 0 && AllDigits(s)
    ensures |s| > 1 ==> s[0] != '0'
  {
    if n < 10 then [DigitChar(n)] else NatToString(n / 10) + [DigitChar(n % 10)]
  }

  /** The text PHP produces when an integer is concatenated to a string. */
  function IntToString(n: int): (s: string)
    ensures |s| > 0 && !IsTrimChar(s[0]) && !IsTrimChar(s[|s| - 1])
  {
    if n < 0 then "-" + NatToString(-n) else NatToString(n)
  }

  /** The leading digits of a run of digits followed by a non-digit are that run. */
  lemma {:induction false} LeadingDigitsBefore(d: string, rest: string)
    requires AllDigits(d)
    requires rest == [] || !IsDigit(rest[0])
    ensures LeadingDigits(d + rest) == d
  {
    if d == [] {
      assert d + rest == rest;
    } else {
      assert (d + rest)[1..] == d[1..] + rest;
      LeadingDigitsBefore(d[1..], rest);
    }
  }

  lemma {:induction false} NatToStringValue(n: nat)
    ensures DigitsValue(NatToString(n)) == n
  {
    if n >= 10 {
      var s := NatToString(n);
      assert s[..|s| - 1] == NatToString(n / 10);
      NatToStringValue(n / 10);
    }
  }

  lemma DropFront(u: string, x: string)
    ensures (u + x)[|u|..] == x
  {
  }

  lemma Reassociate(u: string, x: string, y: string, z: string)
    ensures u + x + y + z == u + (x + (y + z))
  {
  }

  /** The cast of a run of digits followed by a non-digit is the value of the run. */
  lemma IntCastOfDigits(d: string, rest: string)
    requires d != [] && AllDigits(d)
    requires rest == [] || !IsDigit(rest[0])
    ensures IntCast(d + rest) == DigitsValue(d)
  {
    LeadingDigitsBefore(d, rest);
    assert IsDigit((d + rest)[0]);
  }

  /** The same after a '-': the negated value of the run. */
  lemma IntCastOfNegatedDigits(d: string, rest: string)
    requires d != [] && AllDigits(d)
    requires rest == [] || !IsDigit(rest[0])
    ensures IntCast("-" + d + rest) == -(DigitsValue(d) as int)
  {
    LeadingDigitsBefore(d, rest);
    assert "-" + d + rest == "-" + (d + rest);
    DropFront("-", d + rest);
  }

  /** Casting the text of an integer, followed by anything that is not a digit,
      gives back the integer: the cast stops at the first non-digit. */
  lemma IntCastOfIntToStringBefore(n: int, rest: string)
    requires rest == [] || !IsDigit(rest[0])
    ensures IntCast(IntToString(n) + rest) == n
  {
    var m: nat := if n < 0 then -n else n;
    var d := NatToString(m);
    NatToStringValue(m);
    if n < 0 {
      IntCastOfNegatedDigits(d, rest);
    } else {
      IntCastOfDigits(d, rest);
    }
  }

  /** Casting the text of an integer gives back the integer. */
  lemma IntCastOfIntToString(n: int)
    ensures IntCast(IntToString(n)) == n
  {
    IntCastOfIntToStringBefore(n, []);
    assert IntToString(n) + [] == IntToString(n);
  }

  lemma {:induction false} TrimLeftPadded(w: string, x: string)
    requires AllTrimChars(w)
    requires x == [] || !IsTrimChar(x[0])
    ensures TrimLeft(w + x) == x
  {
    if w != [] {
      assert (w + x)[1..] == w[1..] + x;
      TrimLeftPadded(w[1..], x);
    }
  }

  lemma {:induction false} TrimRightPadded(x: string, w: string)
    requires AllTrimChars(w)
    requires x == [] || !IsTrimChar(x[|x| - 1])
    ensures TrimRight(x + w) == x
  {
    if w != [] {
      assert (x + w)[..|x + w| - 1] == x + w[..|w| - 1];
      TrimRightPadded(x, w[..|w| - 1]);
    }
  }

  /** trim() removes exactly the runs of trim characters around a text that neither
      starts nor ends with one. */
  lemma TrimPadded(w1: string, x: string, w2: string)
    requires AllTrimChars(w1) && AllTrimChars(w2)
    requires x == [] || (!IsTrimChar(x[0]) && !IsTrimChar(x[|x| - 1]))
    ensures Trim(w1 + x + w2) == x
  {
    if x == [] {
      assert w1 + x + w2 == (w1 + w2) + [];
      TrimLeftPadded(w1 + w2, []);
    } else {
      assert w1 + x + w2 == w1 + (x + w2);
      TrimLeftPadded(w1, x + w2);
      TrimRightPadded(x, w2);
    }
  }

  /** Trim characters around the text of an integer do not change what it casts to:
      (int) trim(" 12\n") is 12. */
  lemma IntCastOfPaddedInt(w1: string, n: int, w2: string)
    requires AllTrimChars(w1) && AllTrimChars(w2)
    ensures IntCast(Trim(w1 + IntToString(n) + w2)) == n
  {
    TrimPadded(w1, IntToString(n), w2);
    IntCastOfIntToString(n);
  }
}
