/** Decimal text of 64-bit signed integers: what strconv.FormatInt, strconv.Itoa and
    strconv.ParseInt do with base 10. Heights are bucket keys in this form. */
module Decimal {

  const MIN_INT64 := -0x8000_0000_0000_0000
  const MAX_INT64 := 0x7fff_ffff_ffff_ffff

  type Int64 = x: int | -0x8000_0000_0000_0000 <= x <= 0x7fff_ffff_ffff_ffff

  /** A parse result: on a syntax error the value is 0, on a range error it is the nearest bound. */
  datatype Parsed = Parsed(value: Int64, ok: bool)

  predicate IsDigit(c: char) {
    '0' <= c <= '9'
  }

  predicate AllDigits(s: string) {
    forall i | 0 <= i < |s| :: IsDigit(s[i])
  }

  function DigitChar(d: nat): char
    requires d < 10
  {
    ('0' as int + d) as char
  }

  function DigitValue(c: char): nat
    requires IsDigit(c)
  {
    c as int - '0' as int
  }

  function FormatNat(n: nat): (s: string)
    ensures s != "" && AllDigits(s)
  {
    if n < 10 then [DigitChar(n)] else FormatNat(n / 10) + [DigitChar(n % 10)]
  }

  function FormatInt(n: int): string {
    if n < 0 then "-" + FormatNat(0 - n) else FormatNat(n)
  }

  function ParseNat(s: string): nat
    requires AllDigits(s)
  {
    if s == "" then 0 else 10 * ParseNat(s[..|s| - 1]) + DigitValue(s[|s| - 1])
  }

  function Clamp(n: int): Parsed {
    if n < MIN_INT64 then Parsed(MIN_INT64, false)
    else if n > MAX_INT64 then Parsed(MAX_INT64, false)
    else Parsed(n, true)
  }

  /** An optional sign, then one or more digits. */
  function ParseInt(s: string): Parsed {
    var signed := s != "" && (s[0] == '-' || s[0] == '+');
    var digits := if signed then s[1..] else s;
    if digits == "" || !AllDigits(digits) then Parsed(0, false)
    else if signed && s[0] == '-' then Clamp(0 - ParseNat(digits))
    else Clamp(ParseNat(digits))
  }

  lemma {:induction false} ParseFormatNat(n: nat)
    ensures ParseNat(FormatNat(n)) == n
  {
    if n < 10 {
      assert [DigitChar(n)][..0] == "";
    } else {
      ParseFormatNat(n / 10);
      var s := FormatNat(n / 10) + [DigitChar(n % 10)];
      assert s[..|s| - 1] == FormatNat(n / 10);
    }
  }

  lemma ParseUnsigned(digits: string)
    requires digits != "" && AllDigits(digits)
    ensures ParseInt(digits) == Clamp(ParseNat(digits))
  {
    assert IsDigit(digits[0]);
  }

  lemma ParseNegative(digits: string)
    requires digits != "" && AllDigits(digits)
    ensures ParseInt("-" + digits) == Clamp(0 - ParseNat(digits))
  {
    assert ("-" + digits)[1..] == digits;
  }

  /** Formatting a height and parsing it back gives the same height. */
  lemma ParseFormat(n: Int64)
    ensures ParseInt(FormatInt(n)) == Parsed(n, true)
  {
    var magnitude := if n < 0 then 0 - n else n;
    ParseFormatNat(magnitude);
    ParseUnsigned(FormatNat(magnitude));
    ParseNegative(FormatNat(magnitude));
  }

  /** The text of an integer is its decimal numeral: a minus sign before that of the magnitude, and for a
      magnitude the digit alone or the numeral of the tens followed by the digit of the ones. */
  lemma DecimalNumeral(n: nat)
    ensures n > 0 ==> FormatInt(0 - n) == "-" + FormatInt(n)
    ensures n < 10 ==> FormatInt(n) == ["0123456789"[n]]
    ensures n >= 10 ==> FormatInt(n) == FormatInt(n / 10) + ["0123456789"[n % 10]]
  {
    hide FormatNat;
    if n < 10 {
      OneDigit(n);
    } else {
      MoreDigits(n);
    }
  }

  lemma DigitChars(d: nat)
    requires d < 10
    ensures DigitChar(d) == "0123456789"[d]
  {
  }

  lemma OneDigit(n: nat)
    requires n < 10
    ensures FormatNat(n) == ["0123456789"[n]]
  {
    DigitChars(n);
  }

  lemma MoreDigits(n: nat)
    requires n >= 10
    ensures FormatNat(n) == FormatNat(n / 10) + ["0123456789"[n % 10]]
  {
    DigitChars(n % 10);
  }

  /** Two heights never share a bucket key. */
  lemma FormatInjective(m: Int64, n: Int64)
    requires FormatInt(m) == FormatInt(n)
    ensures m == n
  {
    ParseFormat(m);
    ParseFormat(n);
  }

  /** The text of an integer holds only digits and a sign, so it cannot hold a separator. */
  lemma FormatCharacters(n: int)
    ensures forall c | c in FormatInt(n) :: IsDigit(c) || c == '-'
  {
    var s := FormatNat(if n < 0 then 0 - n else n);
    assert forall c | c in s :: IsDigit(c);
  }

  /** Text that is exactly how some 64-bit integer is written. */
  predicate Canonical(s: string) {
    s == FormatInt(ParseInt(s).value)
  }

  lemma FormatIsCanonical(n: Int64)
    ensures Canonical(FormatInt(n))
  {
    ParseFormat(n);
  }
}
