/** Decimal numerals, as %u and %d print them. */
module Decimal {

  function DigitChar(d: nat): (c: char)
    requires d < 10
    ensures '0' <= c <= '9'
  {
    '0' + d as char
  }

  predicate IsDigit(c: char) {
    '0' <= c <= '9'
  }

  function Digits(n: nat): (s: string)
    ensures s != []
    ensures forall i | 0 <= i < |s| :: IsDigit(s[i])
  {
    if n < 10 then [DigitChar(n)] else Digits(n / 10) + [DigitChar(n % 10)]
  }

  function Value(s: string): nat
    requires forall i | 0 <= i < |s| :: IsDigit(s[i])
  {
    if s == [] then 0
    else
      assert IsDigit(s[|s| - 1]);
      10 * Value(s[..|s| - 1]) + (s[|s| - 1] as nat - '0' as nat)
  }

  lemma {:induction false} ValueOfDigits(n: nat)
    ensures Value(Digits(n)) == n
  {
    if n >= 10 {
      var s := Digits(n);
      assert s[..|s| - 1] == Digits(n / 10);
      ValueOfDigits(n / 10);
    }
  }

  lemma DigitsInjective(m: nat, n: nat)
    requires Digits(m) == Digits(n)
    ensures m == n
  {
    ValueOfDigits(m);
    ValueOfDigits(n);
  }

  ghost function Pow10(k: nat): nat {
    if k == 0 then 1 else 10 * Pow10(k - 1)
  }

  lemma {:induction false} DigitsLength(n: nat, k: nat)
    requires k > 0 && n < Pow10(k)
    ensures |Digits(n)| <= k
  {
    if n >= 10 {
      DigitsLength(n / 10, k - 1);
    }
  }

  /** A numeral starts with 0 only when it is that of zero. */
  lemma {:induction false} DigitsStart(n: nat)
    ensures Digits(n)[0] == '0' <==> n == 0
    ensures n == 0 ==> |Digits(n)| == 1
  {
    if n >= 10 {
      DigitsStart(n / 10);
    }
  }

  /** Each digit counts for the power of ten of its place, leading zeros included. */
  lemma {:induction false} ValueOfFirst(d: char, s: string)
    requires IsDigit(d) && forall i | 0 <= i < |s| :: IsDigit(s[i])
    ensures Value([d] + s) == (d as nat - '0' as nat) * Pow10(|s|) + Value(s)
  {
    var t := [d] + s;
    if s == [] {
      assert t[..0] == [];
    } else {
      var n := |s| - 1;
      assert t[..|t| - 1] == [d] + s[..n];
      ValueOfFirst(d, s[..n]);
      Tenfold(d as nat - '0' as nat, Pow10(n), Value(s[..n]));
    }
  }

  lemma Tenfold(d: nat, p: nat, v: nat)
    ensures 10 * (d * p + v) == d * (10 * p) + 10 * v
  {
  }
}
