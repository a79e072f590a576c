/**
 The Retry-After header's number: a digit loop that fills a fixed array from the right.
 */
module Decimal {
  import opened Schema
  import opened Timestamps

  predicate IsInt64(n: int) {
    MIN_INT64 <= n <= MAX_INT64
  }

  /** Negation of a Go int: the least value has no counterpart and stays as it is. */
  function Negate64(n: int): int {
    if n == MIN_INT64 then n else -n
  }

  /** The decimal digits of a number, none for zero. */
  function Digits(n: nat): string {
    if n == 0 then "" else Digits(n / 10) + [DigitChar(n % 10)]
  }

  /** Canonical decimal. */
  function DecimalOf(n: int): string {
    if n == 0 then "0" else if n < 0 then "-" + Digits(-n) else Digits(n)
  }

  /** What the routine returns. The least 64-bit value is its own negation, so its loop writes no digit. */
  function Printed(n: int): string {
    if n == MIN_INT64 then "-" else DecimalOf(n)
  }

  function Signed(negative: bool, n: int): int {
    if negative then -n else n
  }

  /** A decimal parser: an optional sign and at least one digit. */
  function ParseDecimal(s: string): Option<int> {
    if s == [] then None
    else
      var negative := s[0] == '-';
      var digits := if negative then s[1..] else s;
      if digits == [] then None
      else match ReadNumber(digits)
        case None => None
        case Some(n) => Some(Signed(negative, n))
  }

  method StrconvItoa(value: int) returns (s: string)
    requires IsInt64(value)
    ensures s == Printed(value)
  {
    if value == 0 {
      return "0";
    }
    var n := value;
    var negative := n < 0;
    if negative {
      n := Negate64(n);
    }
    var digits := new char[20];
    var index := FillDigits(digits, n);
    ghost var filled := digits[index..];
    if negative {
      index := index - 1;
      digits[index] := '-';
      assert digits[index..] == ['-'] + filled;
    }
    s := digits[index..];
  }

  /** The digit loop. It leaves room for a sign, and does nothing for a number that is not positive. */
  method FillDigits(digits: array<char>, value: int) returns (index: nat)
    requires digits.Length == 20 && value <= MAX_INT64
    modifies digits
    ensures 1 <= index <= digits.Length
    ensures digits[index..] == if value > 0 then Digits(value) else ""
  {
    var n := value;
    index := digits.Length;
    PowerOfTen19();
    ghost var whole: nat := if value > 0 then value else 0;
    while n > 0
      invariant 1 <= index <= digits.Length
      invariant value <= 0 ==> n == value && index == digits.Length
      invariant value > 0 ==> 0 <= n < Pow10(index - 1) && Digits(whole) == Digits(n) + digits[index..]
    {
      DigitStep(n, index);
      ghost var filled := digits[index..];
      index := index - 1;
      digits[index] := DigitChar(n % 10);
      assert digits[index..] == [DigitChar(n % 10)] + filled;
      n := n / 10;
    }
  }

  /** Writing one digit leaves a number with one digit less, so the index never runs below 1. */
  lemma DigitStep(n: nat, index: nat)
    requires n > 0 && index >= 1 && n < Pow10(index - 1)
    ensures index >= 2 && n / 10 < Pow10(index - 2)
    ensures Digits(n) == Digits(n / 10) + [DigitChar(n % 10)]
  {}

  lemma PowerOfTen19()
    ensures Pow10(19) > MAX_INT64
  {
    assert Pow10(4) == 10000;
    assert Pow10(8) == 10000 * Pow10(4);
    assert Pow10(12) == 10000 * Pow10(8);
    assert Pow10(16) == 10000 * Pow10(12);
    assert Pow10(19) == 1000 * Pow10(16);
  }

  lemma {:induction false} ReadDigits(n: nat)
    ensures ReadNumber(Digits(n)) == Some(n)
  {
    if n > 0 {
      ReadDigits(n / 10);
      DigitIsDigit(n % 10);
      var s := Digits(n);
      assert s[..|s| - 1] == Digits(n / 10);
    }
  }

  lemma {:induction false} FirstDigit(n: nat)
    requires n > 0
    ensures Digits(n) != [] && IsDigit(Digits(n)[0]) && Digits(n)[0] != '0'
  {
    DigitIsDigit(n % 10);
    if n >= 10 {
      FirstDigit(n / 10);
    } else {
      assert Digits(n / 10) == [];
    }
  }

  lemma ParseSigned(negative: bool, n: nat)
    requires n > 0
    ensures ParseDecimal((if negative then "-" else "") + Digits(n)) == Some(Signed(negative, n))
  {
    var s := (if negative then "-" else "") + Digits(n);
    ReadDigits(n);
    FirstDigit(n);
    if negative {
      assert s[1..] == Digits(n);
    } else {
      assert s == Digits(n);
    }
  }

  lemma ParseOddOnes()
    ensures ParseDecimal("0") == Some(0) && ParseDecimal("-") == None
  {
    var zero, sign := "0", "-";
    assert zero[..0] == [] && sign[1..] == [];
    assert ReadNumber(zero[..0]) == Some(0);
  }

  /** Parsing what is printed gives the number back for every 64-bit value but the least, and that one
      is printed as a sign without digits, which does not parse. */
  lemma PrintsItself(n: int)
    requires IsInt64(n)
    ensures ParseDecimal(Printed(n)) == Some(n) <==> n != MIN_INT64
  {
    ParseOddOnes();
    if n != 0 {
      ParseSigned(n < 0, if n < 0 then -n else n);
      assert n > 0 ==> "" + Digits(n) == Digits(n);
    }
  }

  /** The printed form is canonical: no leading zero before another digit, and never "-0". */
  lemma NoLeadingZero(n: int)
    requires IsInt64(n) && n != MIN_INT64 && n != 0
    ensures n > 0 ==> Printed(n)[0] != '0' && IsDigit(Printed(n)[0])
    ensures n < 0 ==> |Printed(n)| >= 2 && Printed(n)[0] == '-' && Printed(n)[1] != '0' && IsDigit(Printed(n)[1])
  {
    FirstDigit(if n < 0 then -n else n);
  }
}
