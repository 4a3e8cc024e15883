/** Decimal text as strconv.Itoa and fmt's %d and %02d write it. */
module Text {
  function Digit(n: int): char
    requires 0 <= n < 10
  {
    "0123456789"[n]
  }

  function DecimalNat(n: nat): (s: string)
    ensures |s| > 0 && '0' <= s[0] <= '9'
    ensures forall i :: 0 <= i < |s| ==> '0' <= s[i] <= '9'
  {
    if n < 10 then [Digit(n)] else DecimalNat(n / 10) + [Digit(n % 10)]
  }

  function Decimal(n: int): string {
    if n < 0 then "-" + DecimalNat(-n) else DecimalNat(n)
  }

  function TwoDigits(n: int): string
    requires 0 <= n < 100
  {
    [Digit(n / 10), Digit(n % 10)]
  }

  lemma DigitInjective(a: int, b: int)
    requires 0 <= a < 10 && 0 <= b < 10 && Digit(a) == Digit(b)
    ensures a == b
  {
  }

  lemma {:induction false} DecimalNatInjective(a: nat, b: nat)
    requires DecimalNat(a) == DecimalNat(b)
    ensures a == b
  {
    var s := DecimalNat(a);
    if a >= 10 && b >= 10 {
      assert s[..|s| - 1] == DecimalNat(a / 10) == DecimalNat(b / 10);
      assert s[|s| - 1] == Digit(a % 10) == Digit(b % 10);
      DecimalNatInjective(a / 10, b / 10);
      DigitInjective(a % 10, b % 10);
    } else if a < 10 && b < 10 {
      assert s[0] == Digit(a) == Digit(b);
      DigitInjective(a, b);
    }
  }

  lemma DecimalInjective(a: int, b: int)
    requires Decimal(a) == Decimal(b)
    ensures a == b
  {
    hide DecimalNat, Digit;
    assert a < 0 <==> Decimal(a)[0] == '-';
    assert b < 0 <==> Decimal(b)[0] == '-';
    if a < 0 {
      assert Decimal(a)[1..] == DecimalNat(-a) && Decimal(b)[1..] == DecimalNat(-b);
      DecimalNatInjective(-a, -b);
    } else {
      DecimalNatInjective(a, b);
    }
  }

  lemma TwoDigitsInjective(a: int, b: int)
    requires 0 <= a < 100 && 0 <= b < 100 && TwoDigits(a) == TwoDigits(b)
    ensures a == b
  {
    assert TwoDigits(a)[0] == TwoDigits(b)[0] && TwoDigits(a)[1] == TwoDigits(b)[1];
    DigitInjective(a / 10, b / 10);
    DigitInjective(a % 10, b % 10);
  }
}
