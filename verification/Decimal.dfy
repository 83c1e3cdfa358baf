/** Integers as Go prints them: the droplet ids become the strings the snapshot is keyed by. */
module Decimal {
  function Digit(d: nat): char
    requires d < 10
  {
    ['0', '1', '2', '3', '4', '5', '6', '7', '8', '9'][d]
  }

  function Digits(n: nat): (s: string)
    ensures |s| > 0 && s[0] != '-'
    decreases n
  {
    if n < 10 then [Digit(n)] else Digits(n / 10) + [Digit(n % 10)]
  }

  function Sprint(n: int): string {
    if n < 0 then "-" + Digits(-n) else Digits(n)
  }

  lemma {:induction false} DigitsInjective(m: nat, n: nat)
    requires Digits(m) == Digits(n)
    ensures m == n
    decreases m
  {
    var s, t := Digits(m), Digits(n);
    if m >= 10 && n >= 10 {
      assert s[..|s| - 1] == Digits(m / 10) && t[..|t| - 1] == Digits(n / 10);
      DigitsInjective(m / 10, n / 10);
      assert s[|s| - 1] == Digit(m % 10) && t[|t| - 1] == Digit(n % 10);
    } else {
      assert s[|s| - 1] == Digit(m % 10) && t[|t| - 1] == Digit(n % 10);
    }
  }

  /** The number the characters stand for, digit by digit. */
  function Value(s: string): int {
    if s == "" then 0 else 10 * Value(s[..|s| - 1]) + (s[|s| - 1] as int - '0' as int)
  }

  lemma {:induction false} DigitsReadBack(n: nat)
    ensures Value(Digits(n)) == n
    ensures forall i :: 0 <= i < |Digits(n)| ==> '0' <= Digits(n)[i] <= '9'
    ensures n > 0 ==> Digits(n)[0] != '0'
  {
    if n < 10 {
      assert Digits(n)[..0] == "";
    } else {
      DigitsReadBack(n / 10);
      assert Digits(n)[..|Digits(n)| - 1] == Digits(n / 10);
    }
  }

  /** What is printed reads back as the number: a minus sign for a negative one, and decimal digits. */
  lemma SprintReadsBack(n: int)
    ensures n >= 0 ==> Value(Sprint(n)) == n
    ensures n < 0 ==> Sprint(n)[0] == '-' && Value(Sprint(n)[1..]) == -n
  {
    if n >= 0 {
      DigitsReadBack(n);
    } else {
      DigitsReadBack(-n);
      assert Sprint(n)[1..] == Digits(-n);
    }
  }

  /** Different ids print differently. */
  lemma SprintInjective(m: int, n: int)
    requires Sprint(m) == Sprint(n)
    ensures m == n
  {
    assert (m < 0) <==> Sprint(m)[0] == '-';
    assert (n < 0) <==> Sprint(n)[0] == '-';
    if m < 0 {
      assert Sprint(m)[1..] == Digits(-m) && Sprint(n)[1..] == Digits(-n);
      DigitsInjective(-m, -n);
    } else {
      DigitsInjective(m, n);
    }
  }
}
