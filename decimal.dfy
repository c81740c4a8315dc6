/** Decimal text of the integers that error messages print with `{}`:
    the unsigned `u64`/`usize` payloads and the signed `isize` range bounds.
    `ParseNat` and `ParseInt` read the text back and are the partners that
    show the rendering loses nothing. */
module Decimal {

  /** `u64` (and `usize`, taken to be 64 bits wide). */
  type U64 = n: nat | n < 0x1_0000_0000_0000_0000

  /** `isize`, taken to be 64 bits wide. */
  type I64 = i: int | -0x8000_0000_0000_0000 <= i < 0x8000_0000_0000_0000

  predicate IsDigit(c: char) {
    '0' <= c <= '9'
  }

  predicate AllDigits(s: string) {
    forall i :: 0 <= i < |s| ==> IsDigit(s[i])
  }

  function DigitChar(d: nat): (c: char)
    requires d < 10
    ensures IsDigit(c) && c as int - '0' as int == d
  {
    (('0' as int) + d) as char
  }

  function DigitValue(c: char): (d: nat)
    requires IsDigit(c)
    ensures d < 10 && DigitChar(d) == c
  {
    c as int - '0' as int
  }

  /** The text `{}` prints for an unsigned integer: its decimal digits,
      most significant first, with no leading zero. */
  function NatToString(n: nat): (s: string)
    ensures |s| > 0
    decreases n
  {
    if n < 10 then [DigitChar(n)] else NatToString(n / 10) + [DigitChar(n % 10)]
  }

  /** The text of an unsigned integer is all digits, and starts with `0`
      only for zero itself. */
  lemma {:induction false} NatToStringDigits(n: nat)
    ensures AllDigits(NatToString(n))
    ensures NatToString(n)[0] == '0' <==> n == 0
    decreases n
  {
    if n >= 10 {
      NatToStringDigits(n / 10);
      var s := NatToString(n);
      assert s == NatToString(n / 10) + [DigitChar(n % 10)];
      assert s[0] == NatToString(n / 10)[0];
    }
  }

  /** Reads a string of decimal digits as a number. */
  function ParseNat(s: string): nat
    requires AllDigits(s)
    decreases |s|
  {
    if s == [] then 0 else ParseNat(s[..|s| - 1]) * 10 + DigitValue(s[|s| - 1])
  }

  /** Printing an unsigned integer and reading it back gives the integer. */
  lemma {:induction false} ParseNatToString(n: nat)
    ensures AllDigits(NatToString(n))
    ensures ParseNat(NatToString(n)) == n
    decreases n
  {
    NatToStringDigits(n);
    var s := NatToString(n);
    if n >= 10 {
      ParseNatToString(n / 10);
      assert s[..|s| - 1] == NatToString(n / 10);
    }
  }

  /** Distinct unsigned integers print differently. */
  lemma NatToStringInjective(a: nat, b: nat)
    ensures NatToString(a) == NatToString(b) <==> a == b
  {
    ParseNatToString(a);
    ParseNatToString(b);
  }

  /** The text `{}` prints for a signed integer: a minus sign before the
      digits of the magnitude when it is negative. */
  function IntToString(i: int): (s: string)
    ensures |s| > 0
  {
    if i < 0 then "-" + NatToString(-i) else NatToString(i)
  }

  /** The text of a signed integer starts with a minus sign exactly when
      it is negative, and is digits apart from that sign. */
  lemma IntToStringDigits(i: int)
    ensures IntToString(i)[0] == '-' <==> i < 0
    ensures i >= 0 ==> AllDigits(IntToString(i))
    ensures i < 0 ==> |IntToString(i)| > 1 && AllDigits(IntToString(i)[1..])
  {
    var s := IntToString(i);
    if i < 0 {
      NatToStringDigits(-i);
      assert s[1..] == NatToString(-i);
    } else {
      NatToStringDigits(i);
      assert IsDigit(s[0]);
    }
  }

  /** Text that reads as a signed integer: digits, optionally after a minus sign. */
  predicate IntText(s: string) {
    (|s| > 0 && s[0] == '-' && AllDigits(s[1..])) || AllDigits(s)
  }

  /** Reads back the text of a signed integer. */
  function ParseInt(s: string): int
    requires IntText(s)
  {
    if |s| > 0 && s[0] == '-' then -(ParseNat(s[1..]) as int) else ParseNat(s)
  }

  /** Printing a signed integer and reading it back gives the integer. */
  lemma IntToStringRoundTrip(i: int)
    ensures IntToString(i)[0] == '-' <==> i < 0
    ensures i >= 0 ==> AllDigits(IntToString(i))
    ensures i < 0 ==> AllDigits(IntToString(i)[1..])
    ensures IntText(IntToString(i)) && ParseInt(IntToString(i)) == i
  {
    IntToStringDigits(i);
    var s := IntToString(i);
    if i < 0 {
      var digits := NatToString(-i);
      assert s == "-" + digits;
      assert s[1..] == digits;
      ParseNatToString(-i);
    } else {
      ParseNatToString(i);
    }
  }
}
