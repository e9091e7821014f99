/** `addOverflow` and `subOverflow` for the wide integer types: the wrapped
    result and a flag computed by comparing against the limits. */
module WideOverflow {
  import opened Arithmetic
  import opened WideInteger

  /** `numeric_limits::max` */
  function MaxLimbs(signed: bool, n: nat): (s: Limbs)
    requires n > 0
    ensures |s| == n
  {
    seq(n - 1, _ => BASE - 1) + [if signed then HALF - 1 else BASE - 1]
  }

  /** `numeric_limits::min` of a signed type */
  function MinLimbs(n: nat): (s: Limbs)
    requires n > 0
    ensures |s| == n
  {
    seq(n - 1, _ => 0) + [HALF]
  }

  /** Half the modulus: the bound of the signed range. */
  function Bound(n: nat): int
    requires n > 0
  {
    HALF * Weight(n - 1)
  }

  lemma {:induction false} OnesTo(s: Limbs, n: nat)
    requires forall i | 0 <= i < n :: Item(s, i) == BASE - 1
    ensures ValTo(s, n) == Weight(n) - 1
  {
    hide Weight;
    if n == 0 {
      WeightZero();
    } else {
      OnesTo(s, n - 1);
      WeightNext(n - 1);
      MulDistRight(BASE - 1, 1, Weight(n - 1));
    }
  }

  lemma LimitValues(n: nat)
    requires n > 0
    ensures Val(MaxLimbs(false, n)) == Weight(n) - 1
    ensures Signed(MaxLimbs(true, n)) == Bound(n) - 1
    ensures Signed(MinLimbs(n)) == -Bound(n)
  {
    hide Weight, Val, Signed;
    MaxUnsigned(n);
    MaxSigned(n);
    MinSigned(n);
  }

  lemma MaxUnsigned(n: nat)
    requires n > 0
    ensures Val(MaxLimbs(false, n)) == Weight(n) - 1
  {
    hide Weight, ValTo;
    OnesTo(MaxLimbs(false, n), n);
  }

  lemma MaxSigned(n: nat)
    requires n > 0
    ensures Signed(MaxLimbs(true, n)) == Bound(n) - 1
  {
    hide Weight, ValTo;
    var top := MaxLimbs(true, n);
    OnesTo(top, n - 1);
    ValToNext(top, n - 1);
    MulDistRight(HALF, -1, Weight(n - 1));
  }

  lemma MinSigned(n: nat)
    requires n > 0
    ensures Signed(MinLimbs(n)) == -Bound(n)
  {
    hide Weight, ValTo;
    var low := MinLimbs(n);
    ZeroTo(low, n - 1);
    ValToNext(low, n - 1);
    WeightNext(n - 1);
    MulDistRight(HALF, HALF, Weight(n - 1));
  }

  /** `operator_plus`: a negative right operand is subtracted negated. */
  method OperatorPlus(signed: bool, lhs: Limbs, rhs: Limbs) returns (res: Limbs)
    requires |lhs| == |rhs| > 0
    ensures |res| == |lhs| && Val(res) == (Val(lhs) + Val(rhs)) % Modulus(lhs)
  {
    hide Val, Modulus;
    SameModulus(lhs, rhs);
    if signed && Negative(rhs) {
      var minus := UnaryMinus(rhs);
      res := Minus(lhs, minus);
      DoubleNegation(Val(lhs), Val(rhs), Val(minus), Modulus(lhs));
    } else {
      res := Plus(lhs, rhs);
    }
  }

  /** `operator_minus` */
  method OperatorMinus(signed: bool, lhs: Limbs, rhs: Limbs) returns (res: Limbs)
    requires |lhs| == |rhs| > 0
    ensures |res| == |lhs| && Val(res) == (Val(lhs) - Val(rhs)) % Modulus(lhs)
  {
    hide Val, Modulus;
    SameModulus(lhs, rhs);
    if signed && Negative(rhs) {
      var minus := UnaryMinus(rhs);
      res := Plus(lhs, minus);
      DoubleNegation(Val(lhs), Val(rhs), Val(minus), Modulus(lhs));
    } else {
      res := Minus(lhs, rhs);
    }
  }

  lemma SameModulus(x: Limbs, y: Limbs)
    requires |x| == |y|
    ensures Modulus(x) == Modulus(y)
  {
  }

  lemma DoubleNegation(x: int, y: int, r: int, m: int)
    requires m > 0 && r == (m - y) % m
    ensures (x - r) % m == (x + y) % m
    ensures (x + r) % m == (x - y) % m
  {
    var k := (m - y) / m;
    assert r == (m - y) - m * k;
    MulDist(m, k, -1);
    ModSame(x - r, x + y, k - 1, m);
    ModSame(x - y, x + r, k - 1, m);
  }

  /** Signed integers whose sum or difference fits are added or subtracted exactly. */
  lemma SignedFits(x: Limbs, y: Limbs, res: Limbs, v: int)
    requires |x| == |y| == |res| > 0
    requires || (v == Signed(x) + Signed(y) && Val(res) == (Val(x) + Val(y)) % Modulus(x))
             || (v == Signed(x) - Signed(y) && Val(res) == (Val(x) - Val(y)) % Modulus(x))
    requires -Bound(|x|) <= v < Bound(|x|)
    ensures Signed(res) == v
  {
    hide Val, Weight;
    hide Signed;
    SignedModulo(x);
    SignedModulo(y);
    SumModulo(Signed(x), Signed(y), Val(x), Val(y), Modulus(x));
    SignedUnique(res, v);
  }

  lemma SumModulo(a: int, b: int, c: int, d: int, m: int)
    requires m > 0 && a % m == c && b % m == d
    ensures (a + b) % m == (c + d) % m && (a - b) % m == (c - d) % m
  {
    ModAdd(a, b, m);
    ModAdd(b, c, m);
    ModSub(a, b, m);
    ModAdd(a, -d, m);
  }

  /** Representable as an integer of this type. */
  predicate Fits(signed: bool, n: nat, v: int)
    requires n > 0
  {
    if signed then -Bound(n) <= v < Bound(n) else 0 <= v < Weight(n)
  }

  function Value(signed: bool, s: Limbs): int {
    if signed then Signed(s) else Val(s)
  }

  method AddOverflow(signed: bool, x: Limbs, y: Limbs) returns (res: Limbs, overflow: bool)
    requires |x| == |y| > 0
    ensures |res| == |x|
    ensures overflow <==> !Fits(signed, |x|, Value(signed, x) + Value(signed, y))
    ensures !overflow ==> Value(signed, res) == Value(signed, x) + Value(signed, y)
    ensures Val(res) == (Val(x) + Val(y)) % Modulus(x)
  {
    hide Val, Weight, Signed;
    var n := |x|;
    res := OperatorPlus(signed, x, y);
    LimitValues(n);
    Ranges(x);
    Ranges(y);
    if signed {
      var zero := Zero(n);
      var positive := Greater(true, y, zero);
      var negative := Less(true, y, zero);
      var upper := OperatorMinus(true, MaxLimbs(true, n), y);
      var lower := OperatorMinus(true, MinLimbs(n), y);
      if positive { SignedFits(MaxLimbs(true, n), y, upper, Bound(n) - 1 - Signed(y)); }
      if negative { SignedFits(MinLimbs(n), y, lower, -Bound(n) - Signed(y)); }
      var above := Greater(true, x, upper);
      var below := Less(true, x, lower);
      overflow := (positive && above) || (negative && below);
      if !overflow { SignedFits(x, y, res, Signed(x) + Signed(y)); }
    } else {
      var upper := OperatorMinus(false, MaxLimbs(false, n), y);
      ModSmall(Weight(n) - 1 - Val(y), Weight(n));
      overflow := Greater(false, x, upper);
      if !overflow { ModSmall(Val(x) + Val(y), Weight(n)); }
    }
  }

  method SubOverflow(signed: bool, x: Limbs, y: Limbs) returns (res: Limbs, overflow: bool)
    requires |x| == |y| > 0
    ensures |res| == |x|
    ensures overflow <==> !Fits(signed, |x|, Value(signed, x) - Value(signed, y))
    ensures !overflow ==> Value(signed, res) == Value(signed, x) - Value(signed, y)
    ensures Val(res) == (Val(x) - Val(y)) % Modulus(x)
  {
    hide Val, Weight, Signed;
    var n := |x|;
    res := OperatorMinus(signed, x, y);
    LimitValues(n);
    Ranges(x);
    Ranges(y);
    if signed {
      var zero := Zero(n);
      var positive := Greater(true, y, zero);
      var negative := Less(true, y, zero);
      var upper := OperatorPlus(true, MaxLimbs(true, n), y);
      var lower := OperatorPlus(true, MinLimbs(n), y);
      if negative { SignedFits(MaxLimbs(true, n), y, upper, Bound(n) - 1 + Signed(y)); }
      if positive { SignedFits(MinLimbs(n), y, lower, -Bound(n) + Signed(y)); }
      var above := Greater(true, x, upper);
      var below := Less(true, x, lower);
      overflow := (negative && above) || (positive && below);
      if !overflow { SignedFits(x, y, res, Signed(x) - Signed(y)); }
    } else {
      overflow := Less(false, x, y);
      if !overflow { ModSmall(Val(x) - Val(y), Weight(n)); }
    }
  }

  method Zero(n: nat) returns (zero: Limbs)
    requires n > 0
    ensures |zero| == n && Val(zero) == 0 && Signed(zero) == 0
  {
    zero := seq(n, _ => 0);
    ZeroTo(zero, n);
  }

  lemma Ranges(s: Limbs)
    requires |s| > 0
    ensures 0 <= Val(s) < Weight(|s|) && -Bound(|s|) <= Signed(s) < Bound(|s|) && Weight(|s|) == 2 * Bound(|s|)
  {
    NegativeIffHigh(s);
    ValBound(s);
  }
}
