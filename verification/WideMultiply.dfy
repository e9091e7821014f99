/** `multiply` and `operator_star`: the shift-and-add product for any limb count,
    with its shortcuts for runs of ones, and the unrolled product of 256-bit
    integers from 128-bit halves. Both are the product modulo the width. */
module WideMultiply {
  import opened Arithmetic
  import opened Bitwise
  import opened WideInteger
  import opened WideShift

  // ---- shift and add ----

  /** Adding f * lhs * 2^pos accounts for f low bits of the item. */
  lemma Accumulate(m: int, lhs: int, f: int, multiple: int, item: int, item': int, step: int, p: int,
                   res: int, shifted: int, res': int, goal: int)
    requires m > 0
    requires multiple % m == (f * lhs) % m && item == step * item' + f
    requires shifted == (multiple * p) % m && res' == (res + shifted) % m
    requires (res + lhs * (item * p)) % m == goal % m
    ensures (res' + lhs * (item' * (step * p))) % m == goal % m
  {
    var rest := lhs * (item' * (step * p));
    ModAdd(res + shifted, rest, m);
    ModAdd(multiple * p, res + rest, m);
    ModMul(multiple, p, m);
    ModMul(f * lhs, p, m);
    ModAdd((f * lhs) * p, res + rest, m);
    AccumulateRing(lhs, f, item', step, p);
  }

  lemma AccumulateRing(lhs: int, f: int, item': int, step: int, p: int)
    ensures (f * lhs) * p + lhs * (item' * (step * p)) == lhs * ((step * item' + f) * p)
  {
    MulAssoc(item', step, p);
    MulDistRight(step * item', f, p);
    assert item' * (step * p) == (step * item') * p;
    MulDist(lhs, (step * item') * p, f * p);
    assert (f * lhs) * p == lhs * (f * p);
  }

  /** lhs2 and lhs3 of the source: three and seven times the operand. */
  method Multiples(lhs: Limbs) returns (lhs2: Limbs, lhs3: Limbs)
    requires |lhs| > 0
    ensures |lhs2| == |lhs| == |lhs3|
    ensures Val(lhs2) == (3 * Val(lhs)) % Modulus(lhs) && Val(lhs3) == (7 * Val(lhs)) % Modulus(lhs)
  {
    hide Val, Pow2, Modulus;
    Pow2Zero();
    Pow2Double(0);
    Pow2Double(1);
    var twice := ShiftLeft(lhs, 1);
    lhs2 := Plus(lhs, twice);
    var fourTimes := ShiftLeft(lhs, 2);
    lhs3 := Plus(lhs2, fourTimes);
    LengthModulus(lhs, lhs2);
    AddMultiple(Val(lhs), 1, 2, Modulus(lhs), Val(lhs), Val(twice), Val(lhs2));
    AddMultiple(Val(lhs), 3, 4, Modulus(lhs), Val(lhs2), Val(fourTimes), Val(lhs3));
  }

  lemma LengthModulus(x: Limbs, y: Limbs)
    requires |x| == |y|
    ensures Modulus(x) == Modulus(y) && Val(x) < Modulus(x) && Val(x) == (1 * Val(x)) % Modulus(x)
  {
    hide Val, Modulus;
    ModulusOf(x, y);
    ValBound(x);
    ModSmall(Val(x), Modulus(x));
  }

  lemma ModulusOf(x: Limbs, y: Limbs)
    requires |x| == |y|
    ensures Modulus(x) == Modulus(y)
  {
  }

  lemma AddMultiple(v: int, a: int, b: int, m: int, x: int, y: int, sum: int)
    requires m > 0 && x == (a * v) % m && y == (v * b) % m && sum == (x + y) % m
    ensures sum == ((a + b) * v) % m
  {
    ModAdd(a * v, y, m);
    ModAdd(v * b, a * v, m);
    MulDistRight(a, b, v);
  }

  /** The part of the product still owed while item i of the right operand is being consumed. */
  ghost predicate Owes(lhs: Limbs, rhs: Limbs, res: Limbs, i: nat, item: nat, pos: nat) {
    && |res| == |lhs|
    && (Val(res) + Val(lhs) * (item * Pow2(pos))) % Modulus(lhs) == (Val(lhs) * ValTo(rhs, i + 1)) % Modulus(lhs)
    && 64 * i <= pos && item * Pow2(pos - 64 * i) < BASE
  }

  lemma OwesStart(lhs: Limbs, rhs: Limbs, res: Limbs, i: nat)
    requires |res| == |lhs| && Val(res) == (Val(lhs) * ValTo(rhs, i)) % Modulus(lhs)
    ensures Owes(lhs, rhs, res, i, Item(rhs, i), 64 * i)
  {
    hide Val, ValTo, Weight, Pow2;
    var x, m, v := Item(rhs, i), Modulus(lhs), Val(lhs);
    ValToNext(rhs, i);
    WeightIsPow2(i);
    Pow2Zero();
    assert x * Pow2(0) == x;
    var low, high := v * ValTo(rhs, i), v * (x * Weight(i));
    assert v * ValTo(rhs, i + 1) == low + high by { MulDist(v, ValTo(rhs, i), x * Weight(i)); }
    ModAdd(low, high, m);
  }

  lemma OwesEnd(lhs: Limbs, rhs: Limbs, res: Limbs, i: nat, pos: nat)
    requires Owes(lhs, rhs, res, i, 0, pos)
    ensures Val(res) == (Val(lhs) * ValTo(rhs, i + 1)) % Modulus(lhs)
  {
    hide Val, ValTo, Weight, Pow2;
    ValBound(res);
    ModSmall(Val(res), Modulus(lhs));
  }

  /** An item that is not used up leaves room for another shift. */
  lemma OwesRoom(lhs: Limbs, rhs: Limbs, res: Limbs, i: nat, item: nat, pos: nat)
    requires Owes(lhs, rhs, res, i, item, pos) && item > 0
    ensures pos < 64 * i + 64
  {
    hide Val, ValTo, Weight, Pow2;
    var d := pos - 64 * i;
    MulMonotone(Pow2(d), 1, item);
    if d >= 64 {
      Pow2Monotone(64, d);
      Pow2Of64();
    }
  }

  /** Consuming `count` bits of the item with the operand scaled by f. */
  lemma OwesStep(lhs: Limbs, rhs: Limbs, res: Limbs, i: nat, item: nat, pos: nat,
                 scaled: Limbs, f: nat, count: nat, shifted: Limbs, res': Limbs)
    requires Owes(lhs, rhs, res, i, item, pos) && |scaled| == |lhs| == |shifted| == |res'|
    requires f < Pow2(count) && item % Pow2(count) == f
    requires Val(scaled) % Modulus(lhs) == (f * Val(lhs)) % Modulus(lhs)
    requires Val(shifted) == (Val(scaled) * Pow2(pos)) % Modulus(lhs)
    requires Val(res') == (Val(res) + Val(shifted)) % Modulus(lhs)
    ensures Owes(lhs, rhs, res', i, item / Pow2(count), pos + count)
  {
    hide Val, ValTo, Weight, Pow2;
    var step, item' := Pow2(count), item / Pow2(count);
    Pow2Add(count, pos);
    Pow2Add(count, pos - 64 * i);
    var d := Pow2(pos - 64 * i);
    assert item' * (step * d) <= item * d by { ConsumedBound(item, step, d); }
    Accumulate(Modulus(lhs), Val(lhs), f, Val(scaled), item, item', step, Pow2(pos),
               Val(res), Val(shifted), Val(res'), Val(lhs) * ValTo(rhs, i + 1));
  }

  lemma ConsumedBound(item: nat, step: nat, d: nat)
    requires step > 0
    ensures (item / step) * (step * d) <= item * d
  {
    var q := item / step;
    assert item == step * q + item % step;
    MulMonotone(d, step * q, item);
    assert q * (step * d) == d * (step * q);
  }

  /** A zero bit needs no addition. */
  lemma OwesSkip(lhs: Limbs, rhs: Limbs, res: Limbs, i: nat, item: nat, pos: nat)
    requires Owes(lhs, rhs, res, i, item, pos) && item % 2 == 0
    ensures Owes(lhs, rhs, res, i, item / 2, pos + 1)
  {
    hide Val, ValTo, Weight, Pow2;
    Pow2Double(pos);
    Pow2Double(pos - 64 * i);
    var h := item / 2;
    assert item == 2 * h;
    MulAssoc(h, 2, Pow2(pos));
    MulAssoc(h, 2, Pow2(pos - 64 * i));
  }

  /** The generic branch of `multiply`. */
  method MultiplyGeneric(lhs: Limbs, rhs: Limbs) returns (res: Limbs)
    requires 1 <= |rhs| <= |lhs|
    ensures |res| == |lhs| && Val(res) == (Val(lhs) * Val(rhs)) % Modulus(lhs)
  {
    hide Val, ValTo, Weight, Pow2, And, Owes;
    res := seq(|lhs|, _ => 0);
    var lhs2, lhs3 := Multiples(lhs);
    SmallPowers();
    ProductStart(lhs, rhs, res);
    for i := 0 to |lhs|
      invariant |res| == |lhs|
      invariant Val(res) == (Val(lhs) * ValTo(rhs, i)) % Modulus(lhs)
    {
      var rhsItem: nat := Item(rhs, i);
      var pos: nat := i * 64;
      OwesStart(lhs, rhs, res, i);
      while rhsItem > 0
        invariant |res| == |lhs|
        invariant Owes(lhs, rhs, res, i, rhsItem, pos)
        decreases rhsItem
      {
        OwesRoom(lhs, rhs, res, i, rhsItem, pos);
        LowBits(rhsItem);
        ghost var before := res;
        if And(rhsItem, 0x7) == 0x7 {
          var shifted := ShiftLeft(lhs3, pos);
          res := Plus(res, shifted);
          ScaledModulo(7, lhs, lhs3);
          OwesStep(lhs, rhs, before, i, rhsItem, pos, lhs3, 7, 3, shifted, res);
          rhsItem := rhsItem / 8;
          pos := pos + 3;
        } else if And(rhsItem, 0x3) == 0x3 {
          var shifted := ShiftLeft(lhs2, pos);
          res := Plus(res, shifted);
          ScaledModulo(3, lhs, lhs2);
          OwesStep(lhs, rhs, before, i, rhsItem, pos, lhs2, 3, 2, shifted, res);
          rhsItem := rhsItem / 4;
          pos := pos + 2;
        } else {
          if And(rhsItem, 1) == 1 {
            var shifted := ShiftLeft(lhs, pos);
            res := Plus(res, shifted);
            OwesStep(lhs, rhs, before, i, rhsItem, pos, lhs, 1, 1, shifted, res);
          } else {
            OwesSkip(lhs, rhs, res, i, rhsItem, pos);
          }
          rhsItem := rhsItem / 2;
          pos := pos + 1;
        }
      }
      OwesEnd(lhs, rhs, res, i, pos);
    }
    ProductEnd(lhs, rhs);
  }

  lemma SmallPowers()
    ensures Pow2(1) == 2 && Pow2(2) == 4 && Pow2(3) == 8
  {
  }

  lemma LowBits(x: nat)
    ensures And(x, 1) == x % 2 && And(x, 3) == x % 4 && And(x, 7) == x % 8
  {
    SmallPowers();
    AndLowMask(x, 1);
    AndLowMask(x, 2);
    AndLowMask(x, 3);
  }

  lemma ScaledModulo(f: nat, lhs: Limbs, scaled: Limbs)
    requires Val(scaled) == (f * Val(lhs)) % Modulus(lhs)
    ensures Val(scaled) % Modulus(lhs) == (f * Val(lhs)) % Modulus(lhs)
  {
    hide Val, Weight;
    ModSmall(Val(scaled), Modulus(lhs));
  }

  lemma ProductStart(lhs: Limbs, rhs: Limbs, res: Limbs)
    requires |res| == |lhs| && forall i | 0 <= i < |res| :: res[i] == 0
    ensures Val(res) == (Val(lhs) * ValTo(rhs, 0)) % Modulus(lhs)
  {
    ZeroTo(res, |res|);
    ModSmall(0, Modulus(lhs));
  }

  lemma ProductEnd(lhs: Limbs, rhs: Limbs)
    requires |rhs| <= |lhs|
    ensures ValTo(rhs, |lhs|) == Val(rhs)
  {
    ValToBeyond(rhs, |lhs|);
  }

  // ---- 256 bits from 128-bit halves ----

  const HALF_TYPE: int := 0x1_0000_0000_0000_0000_0000_0000_0000_0000

  /** The product of two 128-bit halves, from their limbs. */
  lemma HalfProduct(a0: int, a1: int, b0: int, b1: int, a01: int, b01: int)
    requires a01 == a1 * BASE + a0 && b01 == b1 * BASE + b0
    ensures a01 * b01 == a0 * b0 + (a1 * b0 + a0 * b1) * BASE + (a1 * b1) * HALF_TYPE
  {
    var x, y := a1 * BASE, b1 * BASE;
    assert (x + a0) * (y + b0) == a0 * b0 + a0 * y + x * b0 + x * y;
    MulAssoc(a0, b1, BASE);
    assert x * b0 == (a1 * b0) * BASE;
    assert x * y == (a1 * b1) * HALF_TYPE;
  }

  /** Modulo 2^256 the product of the high halves drops out. */
  lemma FullProduct(a01: int, a23: int, b01: int, b23: int)
    ensures ((a01 + a23 * HALF_TYPE) * (b01 + b23 * HALF_TYPE)) % (HALF_TYPE * HALF_TYPE)
         == (a01 * b01 + (a23 * b01 + a01 * b23) * HALF_TYPE) % (HALF_TYPE * HALF_TYPE)
  {
    var h := HALF_TYPE;
    var x, y := a23 * h, b23 * h;
    assert (a01 + x) * (b01 + y) == a01 * b01 + a01 * y + x * b01 + x * y;
    MulAssoc(a01, b23, h);
    assert x * b01 == (a23 * b01) * h;
    assert x * y == (h * h) * (a23 * b23);
    ModSame((a01 + x) * (b01 + y), a01 * b01 + (a23 * b01 + a01 * b23) * h, a23 * b23, h * h);
  }

  lemma FourLimbs(s: Limbs)
    requires |s| == 4
    ensures Val(s) == s[0] + s[1] * BASE + (s[2] + s[3] * BASE) * HALF_TYPE
    ensures Modulus(s) == HALF_TYPE * HALF_TYPE
  {
    hide ValTo, Weight;
    ValToOne(s);
    ValToNext(s, 1);
    ValToNext(s, 2);
    ValToNext(s, 3);
    WeightZero();
    WeightNext(0);
    WeightNext(1);
    WeightNext(2);
    WeightNext(3);
  }

  lemma TimesBelow(a: nat, b: nat)
    requires a < BASE && b < BASE
    ensures Times(a, b) < HALF_TYPE && (b == 0 ==> Times(a, b) == 0)
  {
    MulBelow(a, b, BASE);
  }

  lemma MulBelow(a: nat, b: nat, n: nat)
    requires a < n && b < n
    ensures a * b < n * n
  {
    MulMonotone(n, b, n - 1);
    MulMonotone(b, a, n);
    MulDist(n, n, -1);
  }

  /** The two halves of a double word, and the words of a number of any size. */
  method SplitItem(x: nat) returns (high: nat, low: Limb)
    ensures x == BASE * high + low
  {
    high, low := x / BASE, x % BASE;
  }

  method SplitHalf(x: nat) returns (ghost high: nat, low: nat)
    ensures x == HALF_TYPE * high + low && low < HALF_TYPE
  {
    high, low := x / HALF_TYPE, x % HALF_TYPE;
  }

  /** A left shift by one item drops the high half. */
  method ShiftItem(x: nat, ghost high: nat, ghost low: nat) returns (y: nat)
    requires x == BASE * high + low && low < BASE
    ensures y == low * BASE
  {
    y := (x * BASE) % HALF_TYPE;
    DivModUnique(x * BASE, HALF_TYPE, high, low * BASE);
  }

  /** A wrapping increment of the top item. */
  method AddItem(x: Limb, carry: nat) returns (y: Limb, ghost lost: nat)
    ensures x + carry == BASE * lost + y
  {
    y := (x + carry) % BASE;
    lost := (x + carry) / BASE;
  }

  /** A wrapped half sum that is below a summand lost exactly one carry. */
  method AddHalf(x: nat, y: nat) returns (sum: nat, carry: nat)
    requires x < HALF_TYPE && y < HALF_TYPE
    ensures sum < HALF_TYPE && carry <= 1 && sum + carry * HALF_TYPE == x + y
  {
    sum := (x + y) % HALF_TYPE;
    carry := if sum < y then 1 else 0;
  }

  /** The carry chain of the unrolled product, from the products of the limbs:
      low * low, the two mixed ones, and the sum that belongs at 2^128. */
  method CombineProducts(p00: nat, p10: nat, p01: nat, t: nat, wideRhs: bool)
    returns (i0: Limb, i1: Limb, i2: Limb, i3: Limb)
    requires p00 < HALF_TYPE && p10 < HALF_TYPE && p01 < HALF_TYPE && (!wideRhs ==> p01 == 0)
    ensures i0 + i1 * BASE + i2 * HALF_TYPE + i3 * (BASE * HALF_TYPE)
         == (p00 + (p10 + p01) * BASE + t * HALF_TYPE) % (HALF_TYPE * HALF_TYPE)
  {
    ghost var k;
    var r23;
    k, r23 := SplitHalf(t);
    var hi, lo := SplitItem(r23);
    var ph;
    ph, i0 := SplitItem(p00);
    var shifted := ShiftItem(r23, hi, lo);
    var r12, r12x := ph + shifted, p10;
    i3 := hi;
    var c1, c2 := 0, 0;
    ghost var lost1, lost2 := 0, 0;
    if wideRhs {
      r12x, c1 := AddHalf(r12x, p01);
      i3, lost1 := AddItem(i3, c1);
    }
    r12, c2 := AddHalf(r12, r12x);
    i3, lost2 := AddItem(i3, c2);
    i2, i1 := SplitItem(r12);
    CarryRing(p00, p10 + p01, t, k, hi, lo, ph, r12x, r12, c1, c2, lost1 + lost2, i0, i1, i2, i3);
  }

  /** The carry chain as linear equations: every quotient and remainder has its own name. */
  lemma CarryRing(p00: int, s: int, t: int, k: int, hi: int, lo: int, ph: int, x1: int, r12: int, c1: int, c2: int,
                  j: int, i0: Limb, i1: Limb, i2: Limb, i3: Limb)
    requires t == HALF_TYPE * k + BASE * hi + lo && p00 == BASE * ph + i0
    requires x1 + c1 * HALF_TYPE == s && r12 + c2 * HALF_TYPE == ph + lo * BASE + x1
    requires r12 == BASE * i2 + i1 && hi + c1 + c2 == BASE * j + i3
    ensures i0 + i1 * BASE + i2 * HALF_TYPE + i3 * (BASE * HALF_TYPE)
         == (p00 + s * BASE + t * HALF_TYPE) % (HALF_TYPE * HALF_TYPE)
  {
    DivModUnique(p00 + s * BASE + t * HALF_TYPE, HALF_TYPE * HALF_TYPE, k + j,
                 i0 + i1 * BASE + i2 * HALF_TYPE + i3 * (BASE * HALF_TYPE));
  }

  function Times(a: nat, b: nat): (p: nat) {
    a * b
  }

  /** The 256-bit branch of `multiply`; the right operand is 256 bits or one item wide. */
  method Multiply256(lhs: Limbs, rhs: Limbs) returns (res: Limbs)
    requires |lhs| == 4 && (|rhs| == 4 || |rhs| == 1)
    ensures |res| == 4 && Val(res) == (Val(lhs) * Val(rhs)) % Modulus(lhs)
  {
    hide Val, Modulus, Times;
    var a01, a23 := lhs[1] * BASE + lhs[0], lhs[3] * BASE + lhs[2];
    var a0: nat, a1: nat := lhs[0], lhs[1];
    var b01 := Item(rhs, 1) * BASE + rhs[0];
    var b0: nat, b1: nat, b23: nat := b01 % BASE, 0, 0;
    if |rhs| > 1 {
      b1 := b01 / BASE;
      b23 := rhs[3] * BASE + rhs[2];
    }
    assert b0 == rhs[0] && b1 == Item(rhs, 1) && b0 < BASE && b1 < BASE;
    TimesBelow(a0, b0);
    TimesBelow(a1, b0);
    TimesBelow(a0, b1);
    var p00, p10, p01 := Times(a0, b0), Times(a1, b0), Times(a0, b1);
    var t := Times(a23, b01) + Times(a01, b23) + Times(a1, b1);
    var i0, i1, i2, i3 := CombineProducts(p00, p10, p01, t, |rhs| > 1);
    res := [i0, i1, i2, i3];
    ProductValue(lhs, rhs, res, a01, a23, b0, b1, b01, b23, p00, p10, p01, t);
  }

  lemma ProductValue(lhs: Limbs, rhs: Limbs, res: Limbs, a01: int, a23: int, b0: int, b1: int, b01: int, b23: int,
                     p00: int, p10: int, p01: int, t: int)
    requires |lhs| == 4 == |res| && (|rhs| == 4 || |rhs| == 1)
    requires a01 == lhs[1] * BASE + lhs[0] && a23 == lhs[3] * BASE + lhs[2]
    requires b0 == rhs[0] && b1 == Item(rhs, 1)
    requires b01 == b1 * BASE + b0 && b23 == Item(rhs, 3) * BASE + Item(rhs, 2)
    requires 0 <= b0 && 0 <= b1 && 0 <= b23
    requires p00 == Times(lhs[0], b0) && p10 == Times(lhs[1], b0) && p01 == Times(lhs[0], b1)
    requires t == Times(a23, b01) + Times(a01, b23) + Times(lhs[1], b1)
    requires res[0] + res[1] * BASE + res[2] * HALF_TYPE + res[3] * (BASE * HALF_TYPE)
          == (p00 + (p10 + p01) * BASE + t * HALF_TYPE) % (HALF_TYPE * HALF_TYPE)
    ensures Val(res) == (Val(lhs) * Val(rhs)) % Modulus(lhs)
  {
    hide Val, Modulus;
    FourLimbs(lhs);
    FourLimbs(res);
    var padded: Limbs := [rhs[0], Item(rhs, 1), Item(rhs, 2), Item(rhs, 3)];
    FourLimbs(padded);
    Padded(rhs, padded);
    HalfProduct(lhs[0], lhs[1], b0, b1, a01, b01);
    FullProduct(a01, a23, b01, b23);
    Regroup(a01 * b01, p00, p10 + p01, lhs[1] * b1, a23 * b01, a01 * b23);
  }

  lemma Regroup(p: int, p00: int, s: int, w: int, u: int, v: int)
    requires p == p00 + s * BASE + w * HALF_TYPE
    ensures p + (u + v) * HALF_TYPE == p00 + s * BASE + (u + v + w) * HALF_TYPE
  {
  }

  lemma Padded(s: Limbs, t: Limbs)
    requires |s| <= |t| && forall i | 0 <= i < |t| :: t[i] == Item(s, i)
    ensures Val(t) == Val(s)
  {
    ValToSame(s, t, |t|);
    ValToBeyond(s, |t|);
  }

  /** `multiply`: picks the branch by width. Two limbs use the compiler's 128-bit product. */
  method Multiply(lhs: Limbs, rhs: Limbs) returns (res: Limbs)
    requires 1 <= |rhs| <= |lhs|
    requires |lhs| == 2 ==> |rhs| == 2
    requires |lhs| == 4 ==> |rhs| == 4 || |rhs| == 1
    ensures |res| == |lhs| && Val(res) == (Val(lhs) * Val(rhs)) % Modulus(lhs)
  {
    if |lhs| == 4 {
      res := Multiply256(lhs, rhs);
    } else if |lhs| == 2 {
      var a, b := lhs[1] * BASE + lhs[0], rhs[1] * BASE + rhs[0];
      var c := (a * b) % HALF_TYPE;
      res := [c % BASE, c / BASE];
      TwoLimbs(lhs);
      TwoLimbs(rhs);
      TwoLimbs(res);
    } else {
      res := MultiplyGeneric(lhs, rhs);
    }
  }

  lemma TwoLimbs(s: Limbs)
    requires |s| == 2
    ensures Val(s) == s[1] * BASE + s[0] && Modulus(s) == HALF_TYPE
  {
    hide ValTo, Weight;
    ValToOne(s);
    ValToNext(s, 1);
    WeightZero();
    WeightNext(0);
    WeightNext(1);
  }

  // ---- operator_star ----

  /** `operator_star`: multiplies magnitudes and restores the sign; the two's-complement product. */
  method Star(signed: bool, lhs: Limbs, rhs: Limbs) returns (res: Limbs)
    requires |lhs| == |rhs| > 0
    ensures |res| == |lhs|
    ensures signed ==> Val(res) == (Signed(lhs) * Signed(rhs)) % Modulus(lhs)
    ensures !signed ==> Val(res) == (Val(lhs) * Val(rhs)) % Modulus(lhs)
  {
    hide Val, Weight, Signed;
    if signed {
      var l := MakePositive(lhs);
      var r := MakePositive(rhs);
      res := Multiply(l, r);
      SignOf(lhs);
      SignOf(rhs);
      ghost var p := Val(l) * Val(r);
      if Negative(lhs) != Negative(rhs) {
        ghost var before := res;
        res := UnaryMinus(res);
        NegateModulo(p, Modulus(lhs), Val(before));
        SignProduct(Signed(lhs), Signed(rhs), Val(l), Val(r));
      } else {
        SignProduct(Signed(lhs), Signed(rhs), Val(l), Val(r));
      }
    } else {
      res := Multiply(lhs, rhs);
    }
  }

  lemma SignOf(s: Limbs)
    requires |s| > 0
    ensures Negative(s) <==> Signed(s) < 0
  {
    ValBound(s);
  }

  lemma SignProduct(x: int, y: int, a: int, b: int)
    requires a == (if x < 0 then -x else x) && b == (if y < 0 then -y else y)
    ensures if (x < 0) != (y < 0) then x * y == -(a * b) else x * y == a * b
  {
  }

  lemma NegateModulo(p: int, m: int, r: int)
    requires m > 0 && r == p % m
    ensures (m - r) % m == (-p) % m
  {
    ModSub(m, p, m);
    ModAddMultiple(-p, 1, m);
  }
}
