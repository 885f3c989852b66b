/** Python's decimal conversions between `int` and `str`: `str(n)`, used to
    build the chart title, and `int(s)`, used to read the year bounds the
    user typed. */
module Numerals {
  import opened Wrappers
  import opened Text

  predicate IsDigit(c: char) {
    '0' <= c <= '9'
  }

  function DigitChar(d: int): (c: char)
    requires 0 <= d < 10
    ensures IsDigit(c)
  {
    ('0' as int + d) as char
  }

  function DigitValue(c: char): (d: nat)
    requires IsDigit(c)
    ensures d < 10 && DigitChar(d) == c
  {
    c as int - '0' as int
  }

  /** `str(n)` for `n >= 0`: one or more decimal digits, with no leading zero
      unless `n` is zero itself. */
  function NatToString(n: nat): (s: string)
    ensures |s| >= 1
    ensures forall k :: 0 <= k < |s| ==> IsDigit(s[k])
    ensures s[0] == '0' ==> n == 0
  {
    if n < 10 then [DigitChar(n)] else NatToString(n / 10) + [DigitChar(n % 10)]
  }

  /** `str(n)`: a minus sign before the digits of a negative number. */
  function IntToString(n: int): (s: string)
    ensures |s| >= 1 && Trimmed(s)
  {
    if n < 0 then "-" + NatToString(-n) else NatToString(n)
  }

  /** The digit part `int()` accepts in base 10: ASCII digits, where single
      underscores may separate two digits. */
  predicate DigitGroups(d: string) {
    && |d| >= 1
    && IsDigit(d[0])
    && IsDigit(d[|d| - 1])
    && (forall k :: 0 <= k < |d| ==> IsDigit(d[k]) || d[k] == '_')
    && (forall k :: 0 < k < |d| && d[k] == '_' ==> IsDigit(d[k - 1]))
  }

  /** The number the digits of `d` spell, underscores skipped. */
  function DigitsValue(d: string): nat
    requires forall k :: 0 <= k < |d| ==> IsDigit(d[k]) || d[k] == '_'
  {
    if d == [] then 0
    else if d[|d| - 1] == '_' then DigitsValue(d[..|d| - 1])
    else DigitsValue(d[..|d| - 1]) * 10 + DigitValue(d[|d| - 1])
  }

  /** The whitespace `int()` skips around a literal: `str.isspace` except
      the ASCII separators U+001C..U+001F. CPython maps non-ASCII whitespace
      to a space and then skips only the C-locale whitespace, which does not
      include those four. */
  predicate IsIntSpace(c: char) {
    IsSpace(c) && !('\U{1c}' <= c <= '\U{1f}')
  }

  /** The text `int()` reads: `s` without the whitespace it skips at either
      end. */
  function IntTrim(s: string): (t: string)
    ensures |t| <= |s|
    ensures t == [] || (!IsIntSpace(t[0]) && !IsIntSpace(t[|t| - 1]))
    decreases |s|
  {
    if |s| > 0 && IsIntSpace(s[0]) then IntTrim(s[1..])
    else if |s| > 0 && IsIntSpace(s[|s| - 1]) then IntTrim(s[..|s| - 1])
    else s
  }

  /** Away from the four separators, `int()` skips exactly what `strip()`
      removes. */
  lemma {:induction false} IntTrimIsStrip(s: string)
    requires forall k :: 0 <= k < |s| ==> !('\U{1c}' <= s[k] <= '\U{1f}')
    ensures IntTrim(s) == Strip(s)
    decreases |s|
  {
    if |s| > 0 && IsSpace(s[0]) {
      IntTrimIsStrip(s[1..]);
    } else if |s| > 0 && IsSpace(s[|s| - 1]) {
      IntTrimIsStrip(s[..|s| - 1]);
    }
  }

  /** `strip()` removes a leading U+001C, but `int()` rejects it. */
  lemma SeparatorNotSkipped()
    ensures Strip("\U{1c}5") == "5"
    ensures ParseInt("\U{1c}5") == None
  {
    assert IntTrim("\U{1c}5") == "\U{1c}5";
  }

  /** `int(s)`: surrounding whitespace is ignored, one optional sign may lead,
      and the rest must be digit groups; anything else raises ValueError,
      modelled as `None`. */
  function ParseInt(s: string): (r: Option<int>)
    ensures IntTrim(s) == [] ==> r == None
    ensures r.Some? && r.value < 0 ==> IntTrim(s)[0] == '-'
    ensures (var t := IntTrim(s);
             r.Some? <==> DigitGroups(t) || (|t| > 0 && (t[0] == '-' || t[0] == '+') && DigitGroups(t[1..])))
    ensures (var t := IntTrim(s);
             DigitGroups(t) ==> r == Some(DigitsValue(t)))
    ensures (var t := IntTrim(s);
             |t| > 0 && t[0] == '+' && DigitGroups(t[1..]) ==> r == Some(DigitsValue(t[1..])))
    ensures (var t := IntTrim(s);
             |t| > 0 && t[0] == '-' && DigitGroups(t[1..]) ==> r == Some(-(DigitsValue(t[1..]) as int)))
  {
    var t := IntTrim(s);
    if |t| > 0 && (t[0] == '-' || t[0] == '+') then
      var d := t[1..];
      if DigitGroups(d) then
        var v: int := DigitsValue(d);
        Some(if t[0] == '-' then -v else v)
      else None
    else if DigitGroups(t) then Some(DigitsValue(t))
    else None
  }

  lemma {:induction false} NatToStringValue(n: nat)
    ensures DigitGroups(NatToString(n))
    ensures DigitsValue(NatToString(n)) == n
    decreases n
  {
    var s := NatToString(n);
    if n >= 10 {
      NatToStringValue(n / 10);
      var p := NatToString(n / 10);
      assert s[..|s| - 1] == p;
    }
  }

  /** Digit groups are read as their value, and a minus sign before them
      negates it. */
  lemma ParseUnsigned(t: string)
    requires DigitGroups(t)
    ensures ParseInt(t) == Some(DigitsValue(t))
  {
  }

  lemma ParseNegative(d: string)
    requires DigitGroups(d)
    ensures ParseInt("-" + d) == Some(-(DigitsValue(d) as int))
  {
    var t := "-" + d;
    assert t[1..] == d;
  }

  /** Reading back what `str` wrote gives the same number: the title's
      bounds and the parsed bounds agree. */
  lemma ParseIntOfString(n: int)
    ensures ParseInt(IntToString(n)) == Some(n)
  {
    if n < 0 {
      var m: nat := -n;
      assert IntToString(n) == "-" + NatToString(m);
      NatToStringValue(m);
      ParseNegative(NatToString(m));
    } else {
      NatToStringValue(n);
      ParseUnsigned(NatToString(n));
    }
  }
}
