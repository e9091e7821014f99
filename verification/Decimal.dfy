/** Decimal numerals: the one text of each natural number, which every printer in
    the repository has to produce and every reader has to undo. */
module Decimal {
  import opened Arithmetic

  predicate IsDigit(c: char) {
    '0' <= c <= '9'
  }

  function DigitChar(d: nat): (c: char)
    requires d < 10
    ensures IsDigit(c) && DigitValue(c) == d
  {
    '0' + d as char
  }

  function DigitValue(c: char): (d: nat)
    requires IsDigit(c)
    ensures d < 10
  {
    (c - '0') as nat
  }

  /** The decimal text of n, without leading zeros. */
  function Text(n: nat): (s: string)
    ensures |s| > 0
  {
    if n < 10 then [DigitChar(n)] else Text(n / 10) + [DigitChar(n % 10)]
  }

  /** The text of an integer: a minus sign and the decimal magnitude. */
  function IntText(v: int): string {
    if v < 0 then "-" + Text(-v) else Text(v)
  }

  predicate AllDigits(s: string) {
    forall i | 0 <= i < |s| :: IsDigit(s[i])
  }

  /** The number a digit string denotes; leading zeros allowed. */
  function Number(s: string): nat
    requires AllDigits(s)
  {
    if s == "" then 0 else 10 * Number(s[..|s| - 1]) + DigitValue(s[|s| - 1])
  }

  /** A numeral has no superfluous leading zero. */
  predicate IsNumeral(s: string) {
    |s| > 0 && AllDigits(s) && (|s| > 1 ==> s[0] != '0')
  }

  lemma {:induction false} TextIsNumeral(n: nat)
    ensures IsNumeral(Text(n)) && Number(Text(n)) == n && (n > 0 ==> Text(n)[0] != '0')
  {
    if n < 10 {
      assert Text(n)[..0] == "";
    } else {
      TextIsNumeral(n / 10);
      var s := Text(n);
      assert s[..|s| - 1] == Text(n / 10);
    }
  }

  lemma {:induction false} NumeralPositive(s: string)
    requires AllDigits(s) && |s| > 0 && s[0] != '0'
    ensures Number(s) > 0
  {
    if |s| > 1 {
      NumeralPositive(s[..|s| - 1]);
    }
  }

  /** The text is the only numeral of its number. */
  lemma {:induction false} NumeralUnique(s: string)
    requires IsNumeral(s)
    ensures Text(Number(s)) == s
  {
    var init, last := s[..|s| - 1], s[|s| - 1];
    assert s == init + [last];
    if |s| == 1 {
      assert init == "";
    } else {
      NumeralPositive(init);
      NumeralUnique(init);
      var n := Number(s);
      assert n / 10 == Number(init) && n % 10 == DigitValue(last);
      assert DigitChar(DigitValue(last)) == last;
    }
  }

  // ---- fixed-width digit blocks ----

  function Pow10(k: nat): (p: nat)
    ensures p > 0
  {
    if k == 0 then 1 else 10 * Pow10(k - 1)
  }

  /** Exactly k digits of n, with leading zeros. */
  function Block(n: nat, k: nat): (s: string)
    ensures |s| == k
  {
    if k == 0 then "" else Block(n / 10, k - 1) + [DigitChar(n % 10)]
  }

  lemma {:induction false} Pow10Add(a: nat, b: nat)
    ensures Pow10(a + b) == Pow10(a) * Pow10(b)
  {
    if a > 0 {
      Pow10Add(a - 1, b);
      MulAssoc(10, Pow10(a - 1), Pow10(b));
    }
  }

  /** The number without, and with only, its last k digits. */
  function High(n: nat, k: nat): nat {
    DivNonneg(n, Pow10(k));
    n / Pow10(k)
  }

  function Low(n: nat, k: nat): nat {
    n % Pow10(k)
  }

  lemma HighLowStep(n: nat, k: nat)
    requires k > 0
    ensures High(n / 10, k - 1) == High(n, k)
    ensures Low(n, k) / 10 == Low(n / 10, k - 1) && Low(n, k) % 10 == n % 10
  {
    var p := Pow10(k - 1);
    DivDiv(n, 10, p);
    assert Low(n, k) == 10 * ((n / 10) % p) + n % 10;
  }

  /** A block of j + k digits is the block of the quotient followed by the block of the remainder. */
  lemma {:induction false} BlockSplit(n: nat, j: nat, k: nat)
    ensures Block(n, j + k) == Block(High(n, k), j) + Block(Low(n, k), k)
    decreases k
  {
    if k == 0 {
      assert High(n, 0) == n;
    } else {
      hide High, Low;
      BlockSplit(n / 10, j, k - 1);
      HighLowStep(n, k);
    }
  }

  /** A text with a nonzero quotient by 10^k is the text of the quotient followed by k digits. */
  lemma {:induction false} TextSplit(n: nat, k: nat)
    requires Pow10(k) <= n
    ensures Text(n) == Text(High(n, k)) + Block(Low(n, k), k)
    decreases k
  {
    if k == 0 {
      assert High(n, 0) == n;
    } else {
      Pow10Least(k);
      assert Pow10(k) == 10 * Pow10(k - 1);
      TextSplit(n / 10, k - 1);
      HighLowStep(n, k);
    }
  }

  /** Two digits are the decimal text itself from ten upwards. */
  lemma TwoDigits(n: nat)
    requires n < 100
    ensures Block(n, 2) == [DigitChar(n / 10), DigitChar(n % 10)]
    ensures n >= 10 ==> Text(n) == Block(n, 2)
  {
    var m := n / 10;
    assert m % 10 == m;
    assert Block(m, 1) == Block(m / 10, 0) + [DigitChar(m)];
    assert n >= 10 ==> Text(m) == [DigitChar(m)];
  }

  /** Text length and powers of ten. */
  lemma {:induction false} TextLength(n: nat, k: nat)
    requires 0 < k
    ensures |Text(n)| <= k <==> n < Pow10(k)
    decreases k
  {
    if k == 1 {
      assert Pow10(1) == 10;
    } else if n >= 10 {
      TextLength(n / 10, k - 1);
      assert Pow10(k) == 10 * Pow10(k - 1);
    } else {
      Pow10Least(k);
    }
  }

  lemma {:induction false} Pow10Least(k: nat)
    requires 0 < k
    ensures Pow10(k) >= 10
  {
    if k > 1 {
      Pow10Least(k - 1);
    }
  }
}
