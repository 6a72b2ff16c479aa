/** Printing token amounts (frontend/src/lib/formatToken.ts). */
module FormatToken {
  import opened Decimal

  function Pow10(k: nat): (p: nat)
    ensures p >= 1
  {
    if k == 0 then 1 else 10 * Pow10(k - 1)
  }

  function Min(a: nat, b: nat): nat {
    if a < b then a else b
  }

  // ----- Printing -----

  /** toLocaleString: digits in groups of three. */
  function Grouped(s: string): string {
    if |s| <= 3 then s else Grouped(s[..|s| - 3]) + "," + s[|s| - 3..]
  }

  function Zeros(k: nat): (z: string)
    ensures |z| == k && AllDigits(z)
  {
    seq(k, _ => '0')
  }

  function PadStart(s: string, width: nat): string {
    Zeros(if |s| < width then width - |s| else 0) + s
  }

  function WithoutTrailingZeros(s: string): (t: string)
    ensures t <= s
  {
    if s != "" && s[|s| - 1] == '0' then WithoutTrailingZeros(s[..|s| - 1]) else s
  }

  /** The first four decimals of a fraction, without trailing zeros. */
  function Decimals(frac: nat, decimals: nat): string {
    var fracStr := PadStart(Itoa(frac), decimals);
    WithoutTrailingZeros(fracStr[..Min(4, |fracStr|)])
  }

  function Amount(whole: nat, trimmed: string): string {
    if trimmed != "" then Grouped(Itoa(whole)) + "." + trimmed else Grouped(Itoa(whole))
  }

  function Div(a: nat, b: nat): nat
    requires b >= 1
  {
    a / b
  }

  function Whole(value: nat, decimals: nat): nat {
    Div(value, Pow10(decimals))
  }

  function Frac(value: nat, decimals: nat): (frac: nat)
    ensures frac < Pow10(decimals)
  {
    value % Pow10(decimals)
  }

  /** The amount of a token with the given decimals, for a value that is a non-negative integer. */
  function FormatTokenValue(value: nat, decimals: nat): string {
    if value == 0 then "0"
    else if Frac(value, decimals) == 0 then Grouped(Itoa(Whole(value, decimals)))
    else Amount(Whole(value, decimals), Decimals(Frac(value, decimals), decimals))
  }

  // ----- Reading back -----

  function Ungrouped(s: string): string {
    if s == "" then "" else Ungrouped(s[..|s| - 1]) + if s[|s| - 1] == ',' then "" else [s[|s| - 1]]
  }

  /** Where the decimal point is, or the length if there is none. */
  function PointAt(s: string): (n: nat)
    ensures n <= |s|
  {
    if s == "" || s[0] == '.' then 0 else 1 + PointAt(s[1..])
  }

  predicate Readable(s: string) {
    var n := PointAt(s);
    && AllDigits(Ungrouped(s[..n])) && (n < |s| ==> AllDigits(s[n + 1..]) && |s| - (n + 1) <= 4)
  }

  /** The number s shows, in ten-thousandths. */
  function ReadBack(s: string): nat
    requires Readable(s)
  {
    var n := PointAt(s);
    10000 * Atoi(Ungrouped(s[..n]))
    + if n < |s| then Atoi(s[n + 1..]) * Pow10(4 - (|s| - (n + 1))) else 0
  }

  // ----- Grouping is invisible -----

  lemma {:induction false} UngroupAppend(a: string, b: string)
    ensures Ungrouped(a + b) == Ungrouped(a) + Ungrouped(b)
  {
    if b == "" {
      assert a + b == a;
    } else {
      var init := b[..|b| - 1];
      assert (a + b)[..|a + b| - 1] == a + init;
      UngroupAppend(a, init);
    }
  }

  lemma {:induction false} UngroupDigits(s: string)
    requires AllDigits(s)
    ensures Ungrouped(s) == s
  {
    if s != "" {
      UngroupDigits(s[..|s| - 1]);
      assert s == s[..|s| - 1] + [s[|s| - 1]];
    }
  }

  lemma {:induction false} UngroupGrouped(s: string)
    requires AllDigits(s)
    ensures Ungrouped(Grouped(s)) == s
    ensures forall i :: 0 <= i < |Grouped(s)| ==> Grouped(s)[i] != '.'
  {
    if |s| <= 3 {
      UngroupDigits(s);
    } else {
      var front, last := s[..|s| - 3], s[|s| - 3..];
      UngroupGrouped(front);
      UngroupDigits(last);
      CommaGoes();
      assert s == front + last;
      assert Grouped(s) == Grouped(front) + "," + last;
      hide Grouped, Ungrouped;
      UngroupAppend(Grouped(front) + ",", last);
      UngroupAppend(Grouped(front), ",");
    }
  }

  lemma CommaGoes()
    ensures Ungrouped(",") == ""
  {
    assert Ungrouped(",") == Ungrouped(",,"[..0]) + "";
  }

  lemma {:induction false} PointAfter(a: string, b: string)
    requires forall i :: 0 <= i < |a| ==> a[i] != '.'
    requires b == "" || b[0] == '.'
    ensures PointAt(a + b) == |a|
  {
    if a == "" {
      assert a + b == b;
    } else {
      assert (a + b)[1..] == a[1..] + b;
      PointAfter(a[1..], b);
    }
  }

  // ----- Digits -----

  lemma {:induction false} PrefixValue(s: string, k: nat)
    requires AllDigits(s) && k <= |s|
    ensures Atoi(s[..k]) == Atoi(s) / Pow10(|s| - k)
  {
    if k == |s| {
      assert s[..k] == s;
    } else {
      var init := s[..|s| - 1];
      PrefixValue(init, k);
      assert init[..k] == s[..k];
      var p := Pow10(|init| - k);
      assert Atoi(s) / 10 == Atoi(init);
      DivDiv(Atoi(s), 10, p);
    }
  }

  lemma DivDiv(n: nat, a: nat, b: nat)
    requires a >= 1 && b >= 1
    ensures n / (a * b) == (n / a) / b
  {
    var q, r := (n / a) / b, (n / a) % b;
    assert n / a == q * b + r;
    Distribute(q * b, r, a);
    Reassociate(q, b, a);
    assert a * b == b * a && n == (q * b + r) * a + n % a;
    assert n == q * (a * b) + (r * a + n % a);
    AtLeastOne(b - r, a);
    assert (b - r) * a == b * a - r * a;
    Quotient(n, a * b, q, r * a + n % a);
  }

  lemma Quotient(n: nat, m: nat, q: nat, r: nat)
    requires m >= 1 && n == q * m + r && r < m
    ensures n / m == q && n % m == r
  {
    var p := n / m;
    assert n == p * m + n % m;
    assert (q - p) * m == n % m - r;
    AtLeastOne(q - p, m);
    AtLeastOne(p - q, m);
    assert (p - q) * m == -((q - p) * m);
    assert q == p;
  }

  lemma AtLeastOne(k: int, m: nat)
    ensures k >= 1 ==> k * m >= m
  {
    if k >= 1 {
      assert k * m == (k - 1) * m + m && (k - 1) * m >= 0;
    }
  }

  lemma {:induction false} TrimmedValue(s: string)
    requires AllDigits(s)
    ensures var t := WithoutTrailingZeros(s);
            AllDigits(t) && Atoi(s) == Atoi(t) * Pow10(|s| - |t|)
  {
    var t := WithoutTrailingZeros(s);
    if s != "" && s[|s| - 1] == '0' {
      TrimmedValue(s[..|s| - 1]);
      var p := Pow10(|s| - 1 - |t|);
      assert Atoi(s) == 10 * Atoi(s[..|s| - 1]) && Pow10(|s| - |t|) == 10 * p;
      hide Atoi, Pow10;
      Reassociate(Atoi(t), 10, p);
      assert Atoi(t) * 10 * p == 10 * (Atoi(t) * p);
    } else {
      assert t == s && Pow10(0) == 1;
    }
  }

  lemma {:induction false} PaddedValue(s: string, k: nat)
    requires AllDigits(s)
    ensures AllDigits(Zeros(k) + s) && Atoi(Zeros(k) + s) == Atoi(s)
  {
    if s == "" {
      assert Zeros(k) + s == Zeros(k);
      ZerosValue(k);
    } else {
      PaddedValue(s[..|s| - 1], k);
      assert (Zeros(k) + s)[..k + |s| - 1] == Zeros(k) + s[..|s| - 1];
    }
  }

  lemma {:induction false} ZerosValue(k: nat)
    ensures Atoi(Zeros(k)) == 0
  {
    if k > 0 {
      assert Zeros(k)[..k - 1] == Zeros(k - 1);
      ZerosValue(k - 1);
    }
  }

  lemma {:induction false} ItoaLength(n: nat, k: nat)
    requires n < Pow10(k) && k >= 1
    ensures |Itoa(n)| <= k
  {
    if n >= 10 {
      assert k >= 2;
      ItoaLength(n / 10, k - 1);
    }
  }

  // ----- What is printed -----

  lemma PaddedIs(frac: nat, decimals: nat)
    requires frac < Pow10(decimals) && decimals >= 1
    ensures var s := PadStart(Itoa(frac), decimals);
            |s| == decimals && AllDigits(s) && Atoi(s) == frac
  {
    hide Itoa, Atoi, Pow10;
    ItoaLength(frac, decimals);
    AtoiItoa(frac);
    PaddedValue(Itoa(frac), decimals - |Itoa(frac)|);
  }

  /** The fraction shown is its first four decimals. */
  lemma Fraction(frac: nat, decimals: nat)
    requires frac < Pow10(decimals) && decimals >= 1
    ensures var t := Decimals(frac, decimals);
            && |t| <= 4 && AllDigits(t)
            && Atoi(t) * Pow10(4 - |t|) == frac / Pow10(decimals - Min(4, decimals)) * Pow10(4 - Min(4, decimals))
  {
    hide Itoa, Atoi, Pow10, PadStart, WithoutTrailingZeros, AllDigits;
    PaddedIs(frac, decimals);
    var s := PadStart(Itoa(frac), decimals);
    var k := Min(4, decimals);
    PrefixValue(s, k);
    DigitsPrefix(s, k);
    TrimmedValue(s[..k]);
    var t := WithoutTrailingZeros(s[..k]);
    PowAdd(k - |t|, 4 - k);
    Reassociate(Atoi(t), Pow10(k - |t|), Pow10(4 - k));
  }

  lemma DigitsPrefix(s: string, k: nat)
    requires AllDigits(s) && k <= |s|
    ensures AllDigits(s[..k])
  {
  }

  lemma Reassociate(a: nat, b: nat, c: nat)
    ensures a * (b * c) == a * b * c
  {
  }

  lemma {:induction false} PowAdd(a: nat, b: nat)
    ensures Pow10(a + b) == Pow10(a) * Pow10(b)
  {
    if a > 0 {
      PowAdd(a - 1, b);
      assert 10 * (Pow10(a - 1) * Pow10(b)) == (10 * Pow10(a - 1)) * Pow10(b);
    }
  }

  lemma ReadsBack(whole: nat, t: string)
    requires AllDigits(t) && |t| <= 4
    ensures Readable(Grouped(Itoa(whole))) && ReadBack(Grouped(Itoa(whole))) == 10000 * whole
    ensures var s := Grouped(Itoa(whole)) + "." + t;
            Readable(s) && ReadBack(s) == 10000 * whole + Atoi(t) * Pow10(4 - |t|)
  {
    hide Itoa, Atoi, Pow10, Grouped, Ungrouped, PointAt;
    var g := Grouped(Itoa(whole));
    UngroupGrouped(Itoa(whole));
    AtoiItoa(whole);
    PointAfter(g, "");
    assert g + "" == g && g[..|g|] == g;
    PointAfter(g, "." + t);
    var s := g + "." + t;
    assert s == g + ("." + t) && s[..|g|] == g && s[|g| + 1..] == t;
  }

  /** The whole part and the first four decimals are the value in ten-thousandths, rounded down. */
  lemma Truncation(value: nat, decimals: nat)
    ensures var whole, frac := Whole(value, decimals), Frac(value, decimals);
            10000 * whole + frac / Pow10(decimals - Min(4, decimals)) * Pow10(4 - Min(4, decimals))
            == value * 10000 / Pow10(decimals)
  {
    hide Pow10;
    var k := Min(4, decimals);
    PowAdd(decimals - k, k);
    PowAdd(4 - k, k);
    PowFour();
    PowZero();
    assert decimals >= 4 ==> Pow10(k) == 10000 && Pow10(4 - k) == 1;
    assert decimals < 4 ==> Pow10(decimals - k) == 1;
    if decimals >= 4 {
      ManyDecimals(value, Pow10(decimals - 4));
    } else {
      FewDecimals(value, Pow10(decimals), Pow10(4 - decimals));
    }
  }

  lemma PowZero()
    ensures Pow10(0) == 1
  {
  }

  lemma ManyDecimals(value: nat, low: nat)
    requires low >= 1
    ensures 10000 * (value / (low * 10000)) + value % (low * 10000) / low == value * 10000 / (low * 10000)
  {
    var p := low * 10000;
    var whole, frac := value / p, value % p;
    var shown, cut := frac / low, frac % low;
    assert value == whole * p + frac && frac == shown * low + cut;
    var q := 10000 * whole + shown;
    assert value == q * low + cut;
    assert value * 10000 == q * p + cut * 10000;
    Quotient(value * 10000, p, q, cut * 10000);
  }

  lemma FewDecimals(value: nat, p: nat, high: nat)
    requires p >= 1 && p * high == 10000
    ensures 10000 * (value / p) + value % p / 1 * high == value * 10000 / p
  {
    var whole, frac := value / p, value % p;
    assert value == whole * p + frac;
    Reassociate(value, high, p);
    assert value * 10000 == value * high * p + 0;
    Quotient(value * 10000, p, value * high, 0);
    Distribute(whole * p, frac, high);
    Reassociate(whole, p, high);
  }

  lemma Spread(whole: nat, p: nat, frac: nat)
    ensures (whole * p + frac) * 10000 == (10000 * whole) * p + frac * 10000
  {
  }

  lemma Distribute(a: nat, b: nat, p: nat)
    ensures (a + b) * p == a * p + b * p
  {
  }

  lemma PowFour()
    ensures Pow10(4) == 10000
  {
    assert Pow10(4) == 10 * (10 * (10 * (10 * Pow10(0))));
  }

  /** The printed number, group separators aside, is the value rounded down to four decimals. */
  lemma Printed(value: nat, decimals: nat)
    ensures var s := FormatTokenValue(value, decimals);
            Readable(s) && ReadBack(s) == value * 10000 / Pow10(decimals)
  {
    hide Itoa, Atoi, Pow10, Decimals, Grouped, Readable, ReadBack;
    var whole, frac := Whole(value, decimals), Frac(value, decimals);
    Truncation(value, decimals);
    if value == 0 {
      ReadsBackZero();
      DivMonotone(0, 0, Pow10(decimals));
    } else if frac == 0 {
      ReadsBack(whole, "");
      WholeOnly(value, decimals);
    } else {
      PowZero();
      Fraction(frac, decimals);
      AtoiNothing();
      ReadsBack(whole, Decimals(frac, decimals));
    }
  }

  lemma AtoiNothing()
    ensures Atoi("") == 0
  {
  }

  lemma ReadsBackZero()
    ensures Readable("0") && ReadBack("0") == 0
  {
    ReadsBack(0, "");
    assert Itoa(0) == "0";
  }

  lemma WholeOnly(value: nat, decimals: nat)
    requires Frac(value, decimals) == 0
    ensures 10000 * Whole(value, decimals) == value * 10000 / Pow10(decimals)
  {
    var p := Pow10(decimals);
    hide Pow10;
    Spread(value / p, p, 0);
    Quotient(value * 10000, p, 10000 * (value / p), 0);
  }

  /**
   * With P the printed number: P <= value / 10^decimals < P + 10^-4, all in ten-thousandths and multiplied out; P is
   * exact for up to four decimals.
   */
  lemma PrintedBounds(value: nat, decimals: nat)
    ensures var s := FormatTokenValue(value, decimals);
            && Readable(s)
            && ReadBack(s) * Pow10(decimals) <= value * 10000 < (ReadBack(s) + 1) * Pow10(decimals)
            && (decimals <= 4 ==> ReadBack(s) * Pow10(decimals) == value * 10000)
  {
    hide Pow10, Readable, ReadBack, FormatTokenValue;
    Printed(value, decimals);
    var p := Pow10(decimals);
    var n := value * 10000 / p;
    assert value * 10000 == n * p + value * 10000 % p;
    Distribute(n, 1, p);
    if decimals <= 4 {
      PowAdd(4 - decimals, decimals);
      PowFour();
      var q := value * Pow10(4 - decimals);
      Reassociate(value, Pow10(4 - decimals), p);
      Quotient(value * 10000, p, q, 0);
    }
  }

  /** A larger value never prints as a smaller number. */
  lemma PrintedMonotone(small: nat, large: nat, decimals: nat)
    requires small <= large
    ensures Readable(FormatTokenValue(small, decimals)) && Readable(FormatTokenValue(large, decimals))
    ensures ReadBack(FormatTokenValue(small, decimals)) <= ReadBack(FormatTokenValue(large, decimals))
  {
    Printed(small, decimals);
    Printed(large, decimals);
    DivMonotone(small * 10000, large * 10000, Pow10(decimals));
  }

  lemma DivMonotone(a: nat, b: nat, p: nat)
    requires a <= b && p >= 1
    ensures a / p <= b / p
  {
    var x, y := a / p, b / p;
    assert a == x * p + a % p && b == y * p + b % p;
    AtLeastOne(x - y, p);
    assert (x - y) * p == x * p - y * p;
  }

  // ----- The shape of what is printed -----

  /** There is a comma exactly before every third digit from the end that has a digit before it. */
  lemma {:induction false} GroupedShape(s: string)
    requires AllDigits(s)
    ensures forall k :: 0 <= k < |Grouped(s)| ==> (Grouped(s)[k] == ',' <==> (|Grouped(s)| - k) % 4 == 0)
    ensures s != "" ==> Grouped(s) != "" && IsDigit(Grouped(s)[0]) && Grouped(s)[0] == s[0]
  {
    if |s| > 3 {
      var front, last := s[..|s| - 3], s[|s| - 3..];
      GroupedShape(front);
      var g := Grouped(front);
      assert Grouped(s) == g + "," + last;
      hide Grouped;
      forall k | 0 <= k < |g| + 4 ensures (g + "," + last)[k] == ',' <==> (|g| + 4 - k) % 4 == 0 {
      }
    }
  }

  lemma {:induction false} NoZeroLast(s: string)
    ensures var t := WithoutTrailingZeros(s); t != "" ==> t[|t| - 1] != '0'
  {
    if s != "" && s[|s| - 1] == '0' {
      NoZeroLast(s[..|s| - 1]);
    }
  }

  /** What is printed is the grouped whole part and, if there is one, a point and a fraction that does not end in a zero. */
  lemma PrintedShape(value: nat, decimals: nat) returns (t: string)
    ensures FormatTokenValue(value, decimals)
            == Grouped(Itoa(Div(value, Pow10(decimals)))) + if t == "" then "" else "." + t
    ensures |t| <= 4 && AllDigits(t) && (t != "" ==> t[|t| - 1] != '0')
  {
    hide Itoa, Pow10, PadStart, Div;
    t := "";
    var g := Grouped(Itoa(Div(value, Pow10(decimals))));
    if value == 0 {
      ZeroIs(decimals);
    } else if Frac(value, decimals) != 0 {
      var frac := Frac(value, decimals);
      DecimalsPositive(value, decimals);
      Fraction(frac, decimals);
      t := Decimals(frac, decimals);
      var fracStr := PadStart(Itoa(frac), decimals);
      NoZeroLast(fracStr[..Min(4, |fracStr|)]);
      hide Decimals, Grouped;
      assert g + ("." + t) == g + "." + t;
    }
    hide Grouped;
    assert g + "" == g;
  }

  lemma ZeroIs(decimals: nat)
    ensures Grouped(Itoa(Div(0, Pow10(decimals)))) == "0"
  {
  }

  lemma DecimalsPositive(value: nat, decimals: nat)
    requires Frac(value, decimals) != 0
    ensures decimals >= 1
  {
  }
}
