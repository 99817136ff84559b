/**
 * Integer.parseInt, Long.parseLong, Short.parseShort and Byte.parseByte over
 * ASCII digits, with the integer widths of the Java types.
 */
module JavaNumbers {
  import opened Wrappers

  const INT_MIN: int := -0x8000_0000
  const INT_MAX: int := 0x7FFF_FFFF
  const LONG_MIN: int := -0x8000_0000_0000_0000
  const LONG_MAX: int := 0x7FFF_FFFF_FFFF_FFFF
  const SHORT_MIN: int := -0x8000
  const SHORT_MAX: int := 0x7FFF
  const BYTE_MIN: int := -0x80
  const BYTE_MAX: int := 0x7F

  predicate IsDigit(c: char) {
    '0' <= c <= '9'
  }

  predicate AllDigits(s: string) {
    forall i :: 0 <= i < |s| ==> IsDigit(s[i])
  }

  /** The number a string of decimal digits denotes. */
  function DigitsValue(s: string): nat
    requires AllDigits(s)
  {
    if s == [] then 0 else 10 * DigitsValue(s[..|s| - 1]) + (s[|s| - 1] - '0') as nat
  }

  /**
   * The parse of a Java integer literal: an optional '+' or '-', then one or
   * more decimal digits, whose value must lie in [lo, hi]; None stands for a
   * NumberFormatException.
   */
  function ParseInteger(s: string, lo: int, hi: int): Option<int> {
    if s == [] then None
    else
      var digits := if s[0] == '-' || s[0] == '+' then s[1..] else s;
      if digits == [] || !AllDigits(digits) then None
      else
        var v: int := if s[0] == '-' then 0 - DigitsValue(digits) else DigitsValue(digits);
        if lo <= v <= hi then Some(v) else None
  }

  /** `Integer.parseInt(s)` */
  function ParseInt(s: string): Option<int> { ParseInteger(s, INT_MIN, INT_MAX) }

  /** `Long.parseLong(s)` */
  function ParseLong(s: string): Option<int> { ParseInteger(s, LONG_MIN, LONG_MAX) }

  /** `Short.parseShort(s)` */
  function ParseShort(s: string): Option<int> { ParseInteger(s, SHORT_MIN, SHORT_MAX) }

  /** `Byte.parseByte(s)` */
  function ParseByte(s: string): Option<int> { ParseInteger(s, BYTE_MIN, BYTE_MAX) }

  // ---------------------------------------------------------------------------
  // The reference: decimal notation (Integer.toString / Long.toString)

  function DigitChar(d: nat): char
    requires d < 10
  {
    ('0' as int + d) as char
  }

  /** The decimal digits of `n`, with no leading zero. */
  function Digits(n: nat): (s: string)
    ensures s != [] && AllDigits(s)
    ensures DigitsValue(s) == n
  {
    if n < 10 then
      assert [DigitChar(n)][..0] == [];
      [DigitChar(n)]
    else
      var s := Digits(n / 10) + [DigitChar(n % 10)];
      assert s[..|s| - 1] == Digits(n / 10);
      s
  }

  /** `Long.toString(n)` */
  function Decimal(n: int): string {
    if n < 0 then "-" + Digits(-n) else Digits(n)
  }

  /** Parsing gives back any value of the range written in decimal. */
  lemma ParseDecimal(n: int, lo: int, hi: int)
    requires lo <= n <= hi
    ensures ParseInteger(Decimal(n), lo, hi) == Some(n)
  {
    if n < 0 {
      assert Decimal(n)[1..] == Digits(-n);
    }
  }

  /** A value outside the range fails to parse when written in decimal. */
  lemma ParseOutOfRange(n: int, lo: int, hi: int)
    requires n < lo || hi < n
    ensures ParseInteger(Decimal(n), lo, hi).None?
  {
    if n < 0 {
      assert Decimal(n)[1..] == Digits(-n);
    }
  }

  /** A literal with a character that is neither a digit nor a leading sign fails to parse. */
  lemma {:induction false} ParseRejectsOther(s: string, i: nat, lo: int, hi: int)
    requires i < |s| && !IsDigit(s[i])
    requires i > 0 || (s[0] != '+' && s[0] != '-')
    ensures ParseInteger(s, lo, hi).None?
  {
    if s[0] == '-' || s[0] == '+' {
      assert s[1..][i - 1] == s[i];
    }
  }
}
