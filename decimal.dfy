/** Python's conversions between integers and their decimal text, as the
    area-label codec uses them: `str(n)` / f-string formatting of an int, and
    the built-in `int(text)` parser (base 10), restricted to ASCII text. */
module Decimal {
  import opened Cells

  predicate IsDigit(c: char) {
    '0' <= c <= '9'
  }

  function DigitValue(c: char): (d: nat)
    requires IsDigit(c)
    ensures d < 10
  {
    (c as int) - ('0' as int)
  }

  function DigitChar(d: nat): (c: char)
    requires d < 10
    ensures IsDigit(c) && DigitValue(c) == d
  {
    (('0' as int) + d) as char
  }

  /** The ASCII whitespace that `int()` skips around the number: tab,
      line feed, vertical tab, form feed, carriage return and the space.
      The information separators 0x1C-0x1F, which `str.isspace()` accepts,
      are not skipped by `int()`. */
  predicate IsSpace(c: char) {
    var n := c as int;
    n == 32 || 9 <= n <= 13
  }

  // ---------------------------------------------------------------------
  // Formatting: str(n)
  // ---------------------------------------------------------------------

  /** Decimal digits of `n`, most significant first, without leading zeros. */
  function NatToString(n: nat): (s: string)
    ensures |s| > 0
    ensures forall i :: 0 <= i < |s| ==> IsDigit(s[i])
    ensures |s| > 1 ==> s[0] != '0'
    decreases n
  {
    if n < 10 then [DigitChar(n)] else NatToString(n / 10) + [DigitChar(n % 10)]
  }

  /** Python's `str(x)` for an int: a minus sign for negative values. */
  function IntToString(x: int): (s: string)
    ensures |s| > 0 && !IsSpace(s[0]) && !IsSpace(s[|s| - 1])
    ensures forall i :: 0 <= i < |s| ==> !IsSpace(s[i])
    ensures s[0] == '-' <==> x < 0
  {
    if x < 0 then "-" + NatToString(-x) else NatToString(x)
  }

  // ---------------------------------------------------------------------
  // Parsing: int(text)
  // ---------------------------------------------------------------------

  function StripLeft(s: string): (r: string)
    ensures |r| <= |s| && r == s[|s| - |r|..]
    ensures r == [] || !IsSpace(r[0])
    ensures forall i :: 0 <= i < |s| - |r| ==> IsSpace(s[i])
  {
    if |s| > 0 && IsSpace(s[0]) then StripLeft(s[1..]) else s
  }

  function StripRight(s: string): (r: string)
    ensures |r| <= |s| && r == s[..|r|]
    ensures r == [] || !IsSpace(r[|r| - 1])
    ensures forall i :: |r| <= i < |s| ==> IsSpace(s[i])
  {
    if |s| > 0 && IsSpace(s[|s| - 1]) then StripRight(s[..|s| - 1]) else s
  }

  /** The text `int()` parses: leading and trailing whitespace removed. */
  function Strip(s: string): string {
    StripRight(StripLeft(s))
  }

  /** The digit part that `int()` accepts in base 10: one or more digits,
      where a single underscore may separate two digits ("1_000"). */
  predicate WellFormedDigits(s: string) {
    && |s| > 0
    && IsDigit(s[0])
    && IsDigit(s[|s| - 1])
    && (forall i :: 0 <= i < |s| ==> IsDigit(s[i]) || s[i] == '_')
    && (forall i :: 0 <= i < |s| - 1 ==> !(s[i] == '_' && s[i + 1] == '_'))
  }

  /** The value of a run of digits and underscores; underscores are skipped. */
  function DigitsValue(s: string): nat
    requires forall i :: 0 <= i < |s| ==> IsDigit(s[i]) || s[i] == '_'
  {
    if s == [] then 0
    else if s[|s| - 1] == '_' then DigitsValue(s[..|s| - 1])
    else DigitsValue(s[..|s| - 1]) * 10 + DigitValue(s[|s| - 1])
  }

  /** Python's `int(s)`: surrounding whitespace is ignored, an optional sign
      may precede the digits; None stands for the ValueError raised on any
      other text. */
  function ParseInt(s: string): (r: Option<int>)
    ensures var t := Strip(s);
      r.Some? <==> WellFormedDigits(t) || (|t| > 0 && (t[0] == '-' || t[0] == '+') && WellFormedDigits(t[1..]))
    ensures r.Some? && r.value < 0 ==> Strip(s)[0] == '-'
  {
    ParseStripped(Strip(s))
  }

  /** `int()` on text that has already been stripped. */
  function ParseStripped(t: string): Option<int> {
    if |t| > 0 && (t[0] == '-' || t[0] == '+') then
      var body := t[1..];
      if WellFormedDigits(body) then
        var magnitude: int := DigitsValue(body);
        Some(if t[0] == '-' then -magnitude else magnitude)
      else None
    else if WellFormedDigits(t) then
      Some(DigitsValue(t))
    else None
  }

  // ---------------------------------------------------------------------
  // Properties
  // ---------------------------------------------------------------------

  lemma {:induction false} DigitsValueOfNatToString(n: nat)
    ensures WellFormedDigits(NatToString(n))
    ensures DigitsValue(NatToString(n)) == n
    decreases n
  {
    var s := NatToString(n);
    if n >= 10 {
      DigitsValueOfNatToString(n / 10);
      assert s[..|s| - 1] == NatToString(n / 10);
    }
  }

  /** Text with no whitespace at either end is left alone by strip(). */
  lemma StripUnpadded(s: string)
    requires s == [] || (!IsSpace(s[0]) && !IsSpace(s[|s| - 1]))
    ensures Strip(s) == s
  {
  }

  /** One leading space makes no difference to int(). */
  lemma {:induction false} ParseIntIgnoresLeadingSpace(s: string)
    ensures ParseInt(" " + s) == ParseInt(s)
  {
    var t := " " + s;
    assert IsSpace(t[0]) && t[1..] == s;
    assert StripLeft(t) == StripLeft(s);
  }

  /** Whitespace characters in front of a text are skipped by StripLeft. */
  lemma {:induction false} StripLeftSpaces(w: string, s: string)
    requires forall i :: 0 <= i < |w| ==> IsSpace(w[i])
    ensures StripLeft(w + s) == StripLeft(s)
    decreases |w|
  {
    if w == [] {
      assert w + s == s;
    } else {
      assert (w + s)[1..] == w[1..] + s;
      StripLeftSpaces(w[1..], s);
    }
  }

  /** Whitespace characters after a text are skipped by StripRight. */
  lemma {:induction false} StripRightSpaces(s: string, w: string)
    requires forall i :: 0 <= i < |w| ==> IsSpace(w[i])
    ensures StripRight(s + w) == StripRight(s)
    decreases |w|
  {
    if w == [] {
      assert s + w == s;
    } else {
      var z := s + w;
      assert z[..|z| - 1] == s + w[..|w| - 1];
      StripRightSpaces(s, w[..|w| - 1]);
    }
  }

  /** StripLeft of a concatenation strips the second part too only when the
      first part is all whitespace. */
  lemma {:induction false} StripLeftAppend(s: string, w: string)
    ensures StripLeft(s + w) == if StripLeft(s) == [] then StripLeft(w) else StripLeft(s) + w
    decreases |s|
  {
    if s == [] {
      assert s + w == w;
    } else if IsSpace(s[0]) {
      assert (s + w)[1..] == s[1..] + w;
      StripLeftAppend(s[1..], w);
    } else {
      assert (s + w)[0] == s[0];
    }
  }

  /** Any run of whitespace before and after a text makes no difference to
      int(). */
  lemma ParseIntIgnoresSurroundingSpace(w1: string, s: string, w2: string)
    requires forall i :: 0 <= i < |w1| ==> IsSpace(w1[i])
    requires forall i :: 0 <= i < |w2| ==> IsSpace(w2[i])
    ensures ParseInt(w1 + s + w2) == ParseInt(s)
  {
    assert w1 + s + w2 == w1 + (s + w2);
    StripLeftSpaces(w1, s + w2);
    StripLeftAppend(s, w2);
    StripLeftSpaces(w2, []);
    assert w2 + [] == w2;
    if StripLeft(s) != [] {
      StripRightSpaces(StripLeft(s), w2);
    }
  }

  /** int() accepts every optionally signed run of digits (leading zeros and
      single underscores between digits included) and returns its value. */
  lemma ParseIntOfLiteral(sign: string, digits: string)
    requires sign == "" || sign == "+" || sign == "-"
    requires WellFormedDigits(digits)
    ensures ParseInt(sign + digits) == Some(if sign == "-" then -(DigitsValue(digits) as int) else DigitsValue(digits))
  {
    var t := sign + digits;
    assert Strip(t) == t by {
      assert t[|t| - 1] == digits[|digits| - 1];
      StripUnpadded(t);
    }
    ParseStrippedOfLiteral(sign, digits);
  }

  lemma ParseStrippedOfLiteral(sign: string, digits: string)
    requires sign == "" || sign == "+" || sign == "-"
    requires WellFormedDigits(digits)
    ensures ParseStripped(sign + digits) == Some(if sign == "-" then -(DigitsValue(digits) as int) else DigitsValue(digits))
  {
    var t := sign + digits;
    var m: int := DigitsValue(digits);
    if sign == "" {
      assert t == digits;
      assert IsDigit(t[0]) && !(t[0] == '-' || t[0] == '+');
      assert ParseStripped(t) == Some(m);
    } else {
      assert |sign| == 1 && (sign == "-" <==> sign[0] == '-');
      assert t[0] == sign[0] && t[1..] == digits;
      assert ParseStripped(t) == Some(if t[0] == '-' then -m else m);
    }
  }

  /** An information separator (0x1C) in front of a number is not
      whitespace to int(): the text is rejected. */
  lemma {:induction false} ParseIntRejectsSeparator(x: int)
    ensures ParseInt([28 as char] + IntToString(x)) == None
  {
    var t := [28 as char] + IntToString(x);
    assert !IsSpace(t[0]) && !IsSpace(t[|t| - 1]);
    StripUnpadded(t);
    assert !IsDigit(t[0]);
  }

  /** int(str(x)) == x for every integer. */
  lemma {:induction false} ParseIntOfIntToString(x: int)
    ensures ParseInt(IntToString(x)) == Some(x)
  {
    var s := IntToString(x);
    StripUnpadded(s);
    if x < 0 {
      DigitsValueOfNatToString(-x);
      assert s[1..] == NatToString(-x);
    } else {
      DigitsValueOfNatToString(x);
    }
  }

  /** Distinct integers have distinct decimal forms. */
  lemma IntToStringInjective(x: int, y: int)
    requires IntToString(x) == IntToString(y)
    ensures x == y
  {
    ParseIntOfIntToString(x);
    ParseIntOfIntToString(y);
  }

  lemma NatToStringInjective(x: nat, y: nat)
    requires NatToString(x) == NatToString(y)
    ensures x == y
  {
    assert IntToString(x) == NatToString(x);
    assert IntToString(y) == NatToString(y);
    IntToStringInjective(x, y);
  }
}
