/** The two conversions between text and integers that the program relies on:
    Python's `int(text)` (for base 10, on ASCII text) and `str(n)` for an int. */
module PyText {
  import opened Wrappers

  predicate IsDigit(c: char) {
    '0' <= c <= '9'
  }

  predicate IsLower(c: char) {
    'a' <= c <= 'z'
  }

  /** ASCII characters that `str.strip()` and `int()` treat as white space:
      tab, line feed, vertical tab, form feed, carriage return, the four
      information separators and the space. */
  predicate IsSpace(c: char) {
    c == ' ' || '\t' <= c <= '\r' || '\U{1c}' <= c <= '\U{1f}'
  }

  function DigitValue(c: char): nat
    requires IsDigit(c)
  {
    c as int - '0' as int
  }

  function DigitChar(d: nat): (c: char)
    requires d < 10
    ensures IsDigit(c) && DigitValue(c) == d
  {
    ('0' as int + d) as char
  }

  /** Drops white space at the front. */
  function TrimStart(s: string): string {
    if |s| > 0 && IsSpace(s[0]) then TrimStart(s[1..]) else s
  }

  /** Drops white space at the back. */
  function TrimEnd(s: string): string {
    if |s| > 0 && IsSpace(s[|s| - 1]) then TrimEnd(s[..|s| - 1]) else s
  }

  /** Python's `str.strip()`. */
  function Strip(s: string): string {
    TrimEnd(TrimStart(s))
  }

  /** Position `i` of a literal body holds a digit, or an underscore with a
      digit on each side. */
  predicate WellPlaced(s: string, i: int)
    requires 0 <= i < |s|
  {
    IsDigit(s[i]) || (s[i] == '_' && 0 < i < |s| - 1 && IsDigit(s[i - 1]) && IsDigit(s[i + 1]))
  }

  /** A base-10 integer literal body as `int()` accepts it: digits, with single
      underscores allowed between two digits. */
  predicate IsDigitGroup(s: string) {
    |s| > 0 && forall i :: 0 <= i < |s| ==> WellPlaced(s, i)
  }

  /** The value of the digits of `s`, read left to right; underscores add nothing. */
  function DigitsValue(s: string): nat {
    if s == [] then 0
    else if IsDigit(s[|s| - 1]) then 10 * DigitsValue(s[..|s| - 1]) + DigitValue(s[|s| - 1])
    else DigitsValue(s[..|s| - 1])
  }

  /** Python's `int(text)`: None where Python raises ValueError. */
  function ParseInt(text: string): Option<int> {
    var t := Strip(text);
    if |t| > 0 && (t[0] == '-' || t[0] == '+') then
      var magnitude: int := DigitsValue(t[1..]);
      if IsDigitGroup(t[1..]) then Some(if t[0] == '-' then -magnitude else magnitude)
      else None
    else if IsDigitGroup(t) then Some(DigitsValue(t))
    else None
  }

  /** Python's `str(n)` for a non-negative int. */
  function NatToDecimal(n: nat): (r: string)
    ensures |r| > 0
    ensures forall i :: 0 <= i < |r| ==> IsDigit(r[i])
    ensures r[0] == '0' ==> n == 0
  {
    if n < 10 then [DigitChar(n)] else NatToDecimal(n / 10) + [DigitChar(n % 10)]
  }

  /** Python's `str(n)` for an int. */
  function IntToDecimal(n: int): string {
    if n < 0 then "-" + NatToDecimal(-n) else NatToDecimal(n)
  }

  lemma {:induction false} NatToDecimalValue(n: nat)
    ensures DigitsValue(NatToDecimal(n)) == n
    decreases n
  {
    var s := NatToDecimal(n);
    if n < 10 {
      assert s[..|s| - 1] == [];
    } else {
      assert s[..|s| - 1] == NatToDecimal(n / 10);
      NatToDecimalValue(n / 10);
    }
  }

  lemma NoSpaceStrip(s: string)
    requires forall i :: 0 <= i < |s| ==> !IsSpace(s[i])
    ensures Strip(s) == s
  {
  }

  lemma DigitGroupHasNoSpace(d: string)
    requires IsDigitGroup(d)
    ensures forall i :: 0 <= i < |d| ==> !IsSpace(d[i])
  {
    forall i | 0 <= i < |d|
      ensures !IsSpace(d[i])
    {
      assert WellPlaced(d, i);
    }
  }

  lemma DigitsAreDigitGroup(d: string)
    requires |d| > 0 && forall i :: 0 <= i < |d| ==> IsDigit(d[i])
    ensures IsDigitGroup(d)
  {
    forall i | 0 <= i < |d|
      ensures WellPlaced(d, i)
    {
    }
  }

  /** An unsigned literal reads as its digits' value. */
  lemma ParseUnsigned(d: string)
    requires IsDigitGroup(d)
    ensures ParseInt(d) == Some(DigitsValue(d))
  {
    DigitGroupHasNoSpace(d);
    NoSpaceStrip(d);
    var t := Strip(d);
    assert t == d;
    assert WellPlaced(d, 0);
  }

  /** A literal with a leading minus reads as the negated value of its digits. */
  lemma ParseNegative(d: string)
    requires IsDigitGroup(d)
    ensures ParseInt("-" + d) == Some(-(DigitsValue(d) as int))
  {
    var s := "-" + d;
    DigitGroupHasNoSpace(d);
    forall i | 0 <= i < |s|
      ensures !IsSpace(s[i])
    {
      if i > 0 { assert s[i] == d[i - 1]; }
    }
    NoSpaceStrip(s);
    var t := Strip(s);
    assert t == s;
    assert t[1..] == d;
  }

  /** Reading back what `str(n)` wrote gives `n`: `int(str(n)) == n`. */
  lemma {:induction false} ParseIntOfDecimal(n: int)
    ensures ParseInt(IntToDecimal(n)) == Some(n)
  {
    var m: nat := if n < 0 then -n else n;
    NatToDecimalValue(m);
    DigitsAreDigitGroup(NatToDecimal(m));
    if n < 0 {
      ParseNegative(NatToDecimal(m));
    } else {
      ParseUnsigned(NatToDecimal(m));
    }
  }

  /** `str(n)` is canonical: it starts with a minus sign exactly for n < 0,
      with a digit otherwise, and has no leading zero. */
  lemma DecimalIsCanonical(n: int)
    ensures n >= 0 ==> IsDigit(IntToDecimal(n)[0]) && (IntToDecimal(n)[0] != '0' || n == 0)
    ensures n < 0 <==> IntToDecimal(n)[0] == '-'
  {
  }
}
