/** `divide` by shift and subtract, and the truncating signed operators built on it. */
module WideDivide {
  import opened Arithmetic
  import opened Bitwise
  import opened WideInteger
  import opened WideShift
  import opened WideMultiply

  datatype Result<T> = Ok(value: T) | Error(message: string)

  /** Growing phase: the denominator is scaled by the same power of two as x. */
  ghost predicate Scaled(d: int, s: nat, x: int, den: int) {
    d > 0 && x == Pow2(s) && den == d * Pow2(s)
  }

  /** Shrinking phase: what is subtracted is counted in the quotient, whose bits so far lie above x. */
  ghost predicate Subtracting(n: int, d: int, s: nat, x: int, den: int, num: int, quot: int) {
    && num + quot * d == n && 0 <= num && 0 <= quot && d > 0
    && (if x == 0 then num < d
        else Scaled(d, s, x, den) && num < 2 * den && quot % Pow2(s + 1) == 0)
  }

  lemma ScaledDouble(d: int, s: nat, x: int, den: int)
    requires Scaled(d, s, x, den)
    ensures Scaled(d, s + 1, 2 * x, 2 * den)
  {
    hide Pow2;
    Pow2Double(s);
    MulAssoc(d, 2, Pow2(s));
  }

  lemma ScaledBound(d: int, s: nat, x: int, den: int)
    requires Scaled(d, s, x, den)
    ensures 0 < x <= den
  {
    MulMonotone(Pow2(s), 1, d);
  }

  /** x stays below the width, so growing ends within it. */
  lemma ScaledShift(s: nat, n: nat, x: int)
    requires x == Pow2(s) && x < Weight(n)
    ensures s < 64 * n
  {
    WeightIsPow2(n);
    if 64 * n <= s {
      Pow2Monotone(64 * n, s);
    }
  }

  /** A clear top bit leaves room to double. */
  lemma TopBitClear(v: nat, n: nat)
    requires n > 0 && v < Weight(n)
    ensures And(Shr(v, 64 * n - 1), 1) == 0 <==> 2 * v < Weight(n)
  {
    hide Pow2, Weight, And;
    WeightIsPow2(n);
    var h := Pow2(64 * n - 1);
    Pow2Double(64 * n - 1);
    DivBound(v, h, 2);
    var q := v / h;
    LowBits(q);
    assert v == h * q + v % h;
    if q == 0 {
    } else {
      assert q == 1;
    }
  }

  lemma SubtractOr(quot: int, s: nat)
    requires 0 <= quot && quot % Pow2(s + 1) == 0
    ensures Or(quot, Pow2(s)) == quot + Pow2(s)
    ensures quot % Pow2(s) == 0 && (quot + Pow2(s)) % Pow2(s) == 0
  {
    hide Pow2, Or;
    var t, p := quot / Pow2(s + 1), Pow2(s);
    Pow2Double(s);
    assert quot == t * Pow2(s + 1);
    OrDisjoint(t, p, s + 1);
    MulAssoc(p, 2, t);
    DivModUnique(quot, p, 2 * t, 0);
    DivModUnique(quot + p, p, 2 * t + 1, 0);
  }

  /** One round of the second loop, after the conditional subtraction. */
  lemma SubtractStep(n: int, d: int, s: nat, x: int, den: int, num: int, quot: int)
    requires num + quot * d == n && 0 <= num && 0 <= quot
    requires Scaled(d, s, x, den) && num < den && quot % Pow2(s) == 0
    ensures Subtracting(n, d, if s == 0 then 0 else s - 1, x / 2, den / 2, num, quot)
  {
    hide Pow2;
    if s == 0 {
      Pow2Zero();
    } else {
      Pow2Double(s - 1);
      MulAssoc(d, 2, Pow2(s - 1));
      assert x == 2 * Pow2(s - 1) && den == 2 * (d * Pow2(s - 1));
    }
  }

  /** Before the subtraction: what both branches of the round need. */
  lemma SubtractBefore(n: int, d: int, s: nat, x: int, den: int, num: int, quot: int)
    requires Subtracting(n, d, s, x, den, num, quot) && x != 0
    ensures Scaled(d, s, x, den) && 0 <= num < 2 * den && num + quot * d == n && x > 0
    ensures 0 <= quot && Or(quot, x) == quot + x && quot % Pow2(s) == 0 && (quot + x) % Pow2(s) == 0
    ensures (num - den) + (quot + x) * d == n
  {
    hide Pow2, Or;
    SubtractOr(quot, s);
    MulDistRight(quot, x, d);
  }

  lemma SubtractEnd(n: int, d: int, s: nat, den: int, num: int, quot: int)
    requires Subtracting(n, d, s, 0, den, num, quot)
    ensures n == quot * d + num && 0 <= num < d
  {
  }

  /** `divide`: the quotient, and the remainder left in the numerator. Two limbs use the compiler's division. */
  method Divide(numerator: Limbs, denominator: Limbs) returns (res: Result<(Limbs, Limbs)>)
    requires |numerator| == |denominator| > 0
    requires |numerator| == 2 ==> Val(denominator) != 0
    ensures res.Error? <==> Val(denominator) == 0
    ensures res.Ok? ==>
      && |res.value.0| == |numerator| == |res.value.1|
      && Val(numerator) == Val(res.value.0) * Val(denominator) + Val(res.value.1)
      && Val(res.value.1) < Val(denominator)
  {
    hide Val, Weight, Pow2, And, Or, Scaled, Subtracting;
    if |numerator| == 2 {
      var q, r := DivideTwoLimbs(numerator, denominator);
      return Ok((q, r));
    }
    var zero := IsZero(denominator);
    if zero {
      return Error("Division by zero");
    }
    var n := |numerator|;
    var num, den := numerator, denominator;
    var x, quotient := One(n);
    ghost var N, D, s: nat := Val(numerator), Val(denominator), 0;
    ScaledStart(D);
    s, x, den := Grow(num, den, x, D);
    SubtractingStart(N, D, s, Val(x), Val(den), Val(num));
    var done := IsZero(x);
    while !done
      invariant |num| == |den| == |x| == |quotient| == n
      invariant Subtracting(N, D, s, Val(x), Val(den), Val(num), Val(quotient))
      invariant done <==> Val(x) == 0
      decreases Val(x)
    {
      SubtractBefore(N, D, s, Val(x), Val(den), Val(num), Val(quotient));
      ghost var den0, x0 := Val(den), Val(x);
      var greater := Greater(false, den, num);
      if !greater {
        ghost var num0 := num;
        num := Minus(num, den);
        MinusExact(num0, den);
        quotient := Pipe(quotient, x);
      }
      SubtractStep(N, D, s, x0, den0, Val(num), Val(quotient));
      HalfOf();
      x := ShiftRight(false, x, 1);
      den := ShiftRight(false, den, 1);
      s := if s == 0 then 0 else s - 1;
      done := IsZero(x);
    }
    SubtractEnd(N, D, s, Val(den), Val(num), Val(quotient));
    return Ok((quotient, num));
  }

  lemma HalfOf()
    ensures Pow2(1) == 2
  {
  }

  lemma ScaledStart(d: int)
    requires d > 0
    ensures Scaled(d, 0, 1, d)
  {
  }

  lemma SubtractingStart(n: int, d: int, s: nat, x: int, den: int, num: int)
    requires Scaled(d, s, x, den) && num < 2 * den && num == n && 0 <= num
    ensures Subtracting(n, d, s, x, den, num, 0)
  {
    ModSmall(0, Pow2(s + 1));
  }

  lemma MinusExact(num: Limbs, den: Limbs)
    requires |num| == |den| && Val(den) <= Val(num)
    ensures (Val(num) - Val(den)) % Modulus(num) == Val(num) - Val(den)
  {
    hide Val, Weight;
    ValBound(num);
    ModSmall(Val(num) - Val(den), Modulus(num));
  }

  /** The constants one and zero. */
  method One(n: nat) returns (one: Limbs, zero: Limbs)
    requires n > 0
    ensures |one| == |zero| == n && Val(one) == 1 && Val(zero) == 0
  {
    one := [1] + seq(n - 1, _ => 0);
    zero := seq(n, _ => 0);
    ValToOne([1]);
    Padded([1], one);
    ZeroTo(zero, n);
  }

  /** The first loop: doubles x and the denominator until the denominator exceeds the numerator or fills the width. */
  method Grow(num: Limbs, den0: Limbs, x0: Limbs, ghost d: int) returns (ghost s: nat, x: Limbs, den: Limbs)
    requires |num| == |den0| == |x0| > 0
    requires Scaled(d, 0, Val(x0), Val(den0))
    ensures |den| == |x| == |num|
    ensures Scaled(d, s, Val(x), Val(den)) && Val(num) < 2 * Val(den)
  {
    hide Val, Weight, Pow2, And, Scaled;
    var n := |num|;
    x, den, s := x0, den0, 0;
    HalfOf();
    while true
      invariant |den| == |x| == n && Scaled(d, s, Val(x), Val(den))
      decreases 64 * n - s
    {
      ValBound(num);
      ValBound(den);
      ScaledBound(d, s, Val(x), Val(den));
      GrowRoom(d, s, Val(x), Val(den), n);
      TopBitClear(Val(den), n);
      var greater := Greater(false, den, num);
      var top := ShiftRight(false, den, 64 * n - 1);
      var bit := Amp(top, [1]);
      ValToOne([1]);
      ValOne();
      var clear := IsZero(bit);
      if greater || !clear {
        return;
      }
      ScaledDouble(d, s, Val(x), Val(den));
      ModSmall(2 * Val(x), Weight(n));
      ModSmall(2 * Val(den), Weight(n));
      x := ShiftLeft(x, 1);
      den := ShiftLeft(den, 1);
      s := s + 1;
    }
  }

  lemma ValOne()
    ensures Val([1]) == 1
  {
    ValToOne([1]);
  }

  lemma GrowRoom(d: int, s: nat, x: int, den: int, n: nat)
    requires Scaled(d, s, x, den) && den < Weight(n)
    ensures s < 64 * n
  {
    ScaledBound(d, s, x, den);
    ScaledShift(s, n, x);
  }

  method DivideTwoLimbs(numerator: Limbs, denominator: Limbs) returns (q: Limbs, r: Limbs)
    requires |numerator| == |denominator| == 2 && Val(denominator) != 0
    ensures |q| == |r| == 2
    ensures Val(numerator) == Val(q) * Val(denominator) + Val(r) && Val(r) < Val(denominator)
  {
    hide Val;
    TwoLimbs(numerator);
    TwoLimbs(denominator);
    var a, b := numerator[1] * BASE + numerator[0], denominator[1] * BASE + denominator[0];
    var c := a / b;
    DivNonneg(a, b);
    var remainder := a - b * c;
    DivModUnique(a, b, c, a % b);
    q := MakeTwoLimbs(c);
    r := MakeTwoLimbs(remainder);
  }

  method MakeTwoLimbs(x: nat) returns (s: Limbs)
    requires x < BASE * BASE
    ensures |s| == 2 && Val(s) == x
  {
    hide Val;
    s := [x % BASE, x / BASE];
    TwoLimbs(s);
  }

  // ---- truncating division on two's-complement integers ----

  function Abs(x: int): nat {
    if x < 0 then -x else x
  }

  /** Division rounding toward zero, as the source language's built-in integers do it. */
  function TruncDiv(x: int, y: int): int
    requires y != 0
  {
    DivNonneg(Abs(x), Abs(y));
    if (x < 0) != (y < 0) then -(Abs(x) / Abs(y)) else Abs(x) / Abs(y)
  }

  function TruncMod(x: int, y: int): int
    requires y != 0
  {
    if x < 0 then -(Abs(x) % Abs(y)) else Abs(x) % Abs(y)
  }

  /** A quotient and a remainder that is smaller than the divisor and has the dividend's sign. */
  ghost predicate Truncated(x: int, y: int, q: int, r: int) {
    x == q * y + r && Abs(r) < Abs(y) && (r == 0 || (r < 0 <==> x < 0))
  }

  lemma TruncSpec(x: int, y: int)
    requires y != 0
    ensures Truncated(x, y, TruncDiv(x, y), TruncMod(x, y))
  {
    var a, b := Abs(x), Abs(y);
    DivNonneg(a, b);
    Signs(x, y, a / b, a % b);
  }

  lemma Signs(x: int, y: int, q: int, r: int)
    requires y != 0 && Abs(x) == Abs(y) * q + r && 0 <= q && 0 <= r < Abs(y)
    ensures Truncated(x, y, if (x < 0) != (y < 0) then -q else q, if x < 0 then -r else r)
  {
    Negated(q, y);
  }

  lemma Negated(q: int, y: int)
    ensures (-q) * y == -(q * y) && (-y) * q == -(q * y) && y * q == q * y
  {
  }

  /** No other pair qualifies. */
  lemma TruncUnique(x: int, y: int, q: int, r: int)
    requires y != 0 && Truncated(x, y, q, r)
    ensures q == TruncDiv(x, y) && r == TruncMod(x, y)
  {
    hide TruncDiv, TruncMod;
    TruncSpec(x, y);
    var q', r' := TruncDiv(x, y), TruncMod(x, y);
    MulDistRight(q', q - q', y);
    assert (q - q') * y == r' - r;
    if q != q' {
      AbsProduct(q - q', y);
    }
  }

  lemma AbsProduct(a: int, y: int)
    requires a != 0
    ensures Abs(a * y) >= Abs(y)
  {
    assert Abs(a * y) == Abs(a) * Abs(y);
    MulMonotone(Abs(y), 1, Abs(a));
  }

  /** The magnitude of a quotient exceeds the positive range only for the most negative integer over minus one. */
  lemma QuotientRange(x: int, y: int, h: int)
    requires h > 0 && y != 0 && -h <= x < h
    ensures -h <= TruncDiv(x, y) <= h
    ensures TruncDiv(x, y) == h <==> x == -h && y == -1
  {
    var a, b := Abs(x), Abs(y);
    var q := a / b;
    DivNonneg(a, b);
    if q == h {
      assert a == b * q + a % b;
      if b > 1 {
        MulMonotone(q, 2, b);
      }
    }
  }

  lemma RemainderRange(x: int, y: int, h: int)
    requires y != 0 && -h <= x < h && -h <= y < h
    ensures -h <= TruncMod(x, y) < h
  {
    var a, b := Abs(x), Abs(y);
    assert 0 <= a % b < b <= h;
  }

  lemma DividedBy(a: int, n: int, q: int, r: int)
    requires a == q * n + r && 0 <= r < n
    ensures a / n == q && a % n == r
  {
    DivModUnique(a, n, q, r);
  }

  /** `operator_slash` */
  method Slash(signed: bool, lhs: Limbs, rhs: Limbs) returns (res: Result<Limbs>)
    requires |lhs| == |rhs| > 0
    requires |lhs| == 2 ==> Val(rhs) != 0
    ensures res.Error? <==> Val(rhs) == 0
    ensures res.Ok? ==> |res.value| == |lhs|
    ensures res.Ok? && !signed ==> Val(res.value) == Val(lhs) / Val(rhs)
    ensures res.Ok? && signed ==>
      && Signed(rhs) != 0
      && Val(res.value) == TruncDiv(Signed(lhs), Signed(rhs)) % Modulus(lhs)
      && (Signed(res.value) == TruncDiv(Signed(lhs), Signed(rhs))
          <==> !(Signed(lhs) == -(HALF * Weight(|lhs| - 1)) && Signed(rhs) == -1))
  {
    hide Val, Weight, Signed, TruncDiv;
    ZeroSigned(rhs);
    var numerator, denominator := lhs, rhs;
    if signed {
      numerator := MakePositive(lhs);
      denominator := MakePositive(rhs);
      SignOf(lhs);
      SignOf(rhs);
    }
    var d := Divide(numerator, denominator);
    if d.Error? {
      return Error(d.message);
    }
    var quotient := d.value.0;
    ghost var q, n := Val(quotient), Val(denominator);
    DividedBy(Val(numerator), n, q, Val(d.value.1));
    ValBound(quotient);
    ModSmall(q, Modulus(lhs));
    if signed && Negative(rhs) != Negative(lhs) {
      quotient := UnaryMinus(quotient);
    }
    if signed {
      QuotientCase(Signed(lhs), Signed(rhs), q, Modulus(lhs));
      SlashSign(lhs, rhs, quotient);
    }
    return Ok(quotient);
  }

  lemma QuotientCase(x: int, y: int, q: int, m: int)
    requires y != 0 && q == Abs(x) / Abs(y) && 0 <= q < m
    ensures TruncDiv(x, y) % m == if (x < 0) != (y < 0) then (m - q) % m else q
  {
    ModSmall(q, m);
    NegateModulo(q, m, q);
  }

  lemma RemainderCase(x: int, y: int, r: int, m: int)
    requires y != 0 && r == Abs(x) % Abs(y) && 0 <= r < m
    ensures TruncMod(x, y) % m == if x < 0 then (m - r) % m else r
  {
    ModSmall(r, m);
    NegateModulo(r, m, r);
  }

  lemma ZeroSigned(s: Limbs)
    requires |s| > 0
    ensures Signed(s) == 0 <==> Val(s) == 0
  {
    NegativeIffHigh(s);
    ValBound(s);
  }

  lemma SlashSign(lhs: Limbs, rhs: Limbs, res: Limbs)
    requires |lhs| == |rhs| == |res| > 0 && Signed(rhs) != 0
    requires Val(res) == TruncDiv(Signed(lhs), Signed(rhs)) % Modulus(lhs)
    ensures Signed(res) == TruncDiv(Signed(lhs), Signed(rhs))
       <==> !(Signed(lhs) == -(HALF * Weight(|lhs| - 1)) && Signed(rhs) == -1)
  {
    hide Val, Weight, TruncDiv, Signed;
    var h := HALF * Weight(|lhs| - 1);
    var v := TruncDiv(Signed(lhs), Signed(rhs));
    NegativeIffHigh(lhs);
    NegativeIffHigh(res);
    QuotientRange(Signed(lhs), Signed(rhs), h);
    if v != h {
      SignedUnique(res, v);
    }
  }

  /** `operator_percent`: the remainder takes the sign of the dividend. */
  method Percent(signed: bool, lhs: Limbs, rhs: Limbs) returns (res: Result<Limbs>)
    requires |lhs| == |rhs| > 0
    requires |lhs| == 2 ==> Val(rhs) != 0
    ensures res.Error? <==> Val(rhs) == 0
    ensures res.Ok? ==> |res.value| == |lhs|
    ensures res.Ok? && !signed ==> Val(res.value) == Val(lhs) % Val(rhs)
    ensures res.Ok? && signed ==> Signed(rhs) != 0 && Signed(res.value) == TruncMod(Signed(lhs), Signed(rhs))
  {
    hide Val, Weight, Signed, TruncMod;
    ZeroSigned(rhs);
    var numerator, denominator := lhs, rhs;
    if signed {
      numerator := MakePositive(lhs);
      denominator := MakePositive(rhs);
      SignOf(lhs);
      SignOf(rhs);
    }
    var d := Divide(numerator, denominator);
    if d.Error? {
      return Error(d.message);
    }
    var remainder := d.value.1;
    ghost var r, n := Val(remainder), Val(denominator);
    DividedBy(Val(numerator), n, Val(d.value.0), r);
    ValBound(remainder);
    ModSmall(r, Modulus(lhs));
    if signed && Negative(lhs) {
      remainder := UnaryMinus(remainder);
    }
    if signed {
      RemainderCase(Signed(lhs), Signed(rhs), r, Modulus(lhs));
      PercentSign(lhs, rhs, remainder);
    }
    return Ok(remainder);
  }

  lemma PercentSign(lhs: Limbs, rhs: Limbs, res: Limbs)
    requires |lhs| == |rhs| == |res| > 0 && Signed(rhs) != 0
    requires Val(res) == TruncMod(Signed(lhs), Signed(rhs)) % Modulus(lhs)
    ensures Signed(res) == TruncMod(Signed(lhs), Signed(rhs))
  {
    hide Val, Weight, TruncMod, Signed;
    NegativeIffHigh(lhs);
    NegativeIffHigh(rhs);
    RemainderRange(Signed(lhs), Signed(rhs), HALF * Weight(|lhs| - 1));
    SignedUnique(res, TruncMod(Signed(lhs), Signed(rhs)));
  }
}
