/** Decimal numerals: strconv.Itoa / BigInt.toString on one side, Number / ParseUint on the other. */
module Decimal {

  predicate IsDigit(c: char) {
    '0' <= c <= '9'
  }

  predicate AllDigits(s: string) {
    forall i :: 0 <= i < |s| ==> IsDigit(s[i])
  }

  function Digit(d: nat): (c: char)
    requires d < 10
    ensures IsDigit(c) && DigitValue(c) == d
  {
    '0' + d as char
  }

  function DigitValue(c: char): (d: nat)
    requires IsDigit(c)
    ensures d < 10
  {
    c as int - '0' as int
  }

  /** The shortest decimal numeral of n. */
  function Itoa(n: nat): (s: string)
    ensures Canonical(s)
  {
    if n < 10 then [Digit(n)] else Itoa(n / 10) + [Digit(n % 10)]
  }

  /** The value of a digit string; the empty string counts as 0, as JavaScript's Number does. */
  function Atoi(s: string): nat
    requires AllDigits(s)
  {
    if s == [] then 0 else 10 * Atoi(s[..|s| - 1]) + DigitValue(s[|s| - 1])
  }

  /** Numerals as Itoa prints them: digits only, no superfluous leading zero. */
  predicate Canonical(s: string) {
    s != [] && AllDigits(s) && (s[0] == '0' ==> |s| == 1)
  }

  lemma {:induction false} AtoiItoa(n: nat)
    ensures Atoi(Itoa(n)) == n
  {
    if n >= 10 {
      AtoiItoa(n / 10);
      var s := Itoa(n);
      assert s[..|s| - 1] == Itoa(n / 10);
    }
  }

  lemma AtoiZero()
    ensures Canonical("0") && Atoi("0") == 0
  {
    assert "0"[..0] == [];
  }

  lemma {:induction false} AtoiPositive(s: string)
    requires Canonical(s) && s[0] != '0'
    ensures Atoi(s) > 0
  {
    if |s| > 1 {
      AtoiPositive(s[..|s| - 1]);
    } else {
      assert s[..0] == [];
    }
  }

  lemma {:induction false} ItoaAtoi(s: string)
    requires Canonical(s)
    ensures Itoa(Atoi(s)) == s
  {
    var init, last := s[..|s| - 1], s[|s| - 1];
    assert s == init + [last];
    if |s| > 1 {
      assert Canonical(init);
      ItoaAtoi(init);
      AtoiPositive(init);
      assert Atoi(s) / 10 == Atoi(init) && Atoi(s) % 10 == DigitValue(last);
    } else {
      assert Atoi(init) == 0;
    }
  }
}
