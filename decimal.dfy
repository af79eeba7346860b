/** Decimal text of integers: what printf's "%ld" and "%d" write, and the value a run of
    digits stands for (what strtol reads back in base 10). */
module Decimal {

  predicate IsDigit(c: char) {
    '0' <= c <= '9'
  }

  predicate AllDigits(s: string) {
    forall i :: 0 <= i < |s| ==> IsDigit(s[i])
  }

  function DigitChar(d: nat): (c: char)
    requires d < 10
    ensures IsDigit(c) && c as int - '0' as int == d
  {
    ('0' as int + d) as char
  }

  function DigitValue(c: char): (d: nat)
    requires IsDigit(c)
    ensures d < 10
  {
    c as int - '0' as int
  }

  /** The digits of n, most significant first, with no leading zero. */
  function ShowNat(n: nat): (s: string)
    ensures |s| >= 1 && AllDigits(s)
    ensures |s| > 1 ==> s[0] != '0'
  {
    if n < 10 then [DigitChar(n)] else ShowNat(n / 10) + [DigitChar(n % 10)]
  }

  /** printf("%ld", n): a minus sign for negative numbers, then the digits of the magnitude. */
  function Show(n: int): (s: string)
    ensures |s| >= 1
    ensures n < 0 <==> s[0] == '-'
    ensures forall i :: 0 <= i < |s| ==> IsDigit(s[i]) || (i == 0 && s[i] == '-')
  {
    if n < 0 then "-" + ShowNat(-n) else ShowNat(n)
  }

  /** The number a string of decimal digits denotes. */
  function Value(s: string): nat
    requires AllDigits(s)
  {
    if s == [] then 0 else Value(s[..|s| - 1]) * 10 + DigitValue(s[|s| - 1])
  }

  /** Reading the digits back gives the number that was written. */
  lemma {:induction false} ValueOfShowNat(n: nat)
    ensures Value(ShowNat(n)) == n
  {
    if n >= 10 {
      ValueOfShowNat(n / 10);
      var s := ShowNat(n);
      assert s[..|s| - 1] == ShowNat(n / 10);
    }
  }

  lemma ShowNatInjective(m: nat, n: nat)
    requires ShowNat(m) == ShowNat(n)
    ensures m == n
  {
    ValueOfShowNat(m);
    ValueOfShowNat(n);
  }

  /** Distinct numbers are written differently. */
  lemma ShowInjective(a: int, b: int)
    requires Show(a) == Show(b)
    ensures a == b
  {
    if a < 0 {
      assert b < 0;
      assert ShowNat(-a) == ShowNat(-b) by {
        assert Show(a)[1..] == ShowNat(-a);
        assert Show(b)[1..] == ShowNat(-b);
      }
      ShowNatInjective(-a, -b);
    } else {
      assert b >= 0;
      ShowNatInjective(a, b);
    }
  }

  function Pow10(k: nat): (p: nat)
    ensures p >= 1
  {
    if k == 0 then 1 else 10 * Pow10(k - 1)
  }

  /** A number below 10^k takes at most k digits. */
  lemma {:induction false} ShowNatWidth(n: nat, k: nat)
    requires 1 <= k && n < Pow10(k)
    ensures |ShowNat(n)| <= k
  {
    if n >= 10 {
      ShowNatWidth(n / 10, k - 1);
    }
  }

  /** Every value of a 32-bit C int prints in at most eleven characters. */
  lemma Int32Width(n: int)
    requires -0x8000_0000 <= n < 0x8000_0000
    ensures |Show(n)| <= 11
  {
    assert Pow10(10) == 10_000_000_000;
    if n < 0 {
      ShowNatWidth(-n, 10);
    } else {
      ShowNatWidth(n, 10);
    }
  }

  /** A conversion to a 32-bit two's-complement C int: the value congruent to n modulo 2^32
      in [-2^31, 2^31). */
  function Wrap32(n: int): (r: int)
    ensures -0x8000_0000 <= r < 0x8000_0000
    ensures -0x8000_0000 <= n < 0x8000_0000 ==> r == n
  {
    (n + 0x8000_0000) % 0x1_0000_0000 - 0x8000_0000
  }

  /** 2^32 + 1 is cut to 1. */
  lemma Wrap32Example()
    ensures Wrap32(0x1_0000_0001) == 1
  {
  }

  /** The cut keeps the low 32 bits: the result differs from n by a multiple of 2^32. */
  lemma Wrap32Congruent(n: int)
    ensures (n - Wrap32(n)) % 0x1_0000_0000 == 0
  {
    var q := (n + 0x8000_0000) / 0x1_0000_0000;
    assert n - Wrap32(n) == q * 0x1_0000_0000;
  }
}
