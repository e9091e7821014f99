/** `wide::integer`: little-endian arrays of 64-bit limbs, for any limb count.
    Every operation is stated on the natural number the limbs denote (Val) or on
    the two's-complement integer (Signed). Items of a narrower operand beyond its
    end read as zero, as `get_item` makes them. */
module WideInteger {
  import opened Arithmetic
  import opened Bitwise

  const BASE: int := 0x1_0000_0000_0000_0000
  const HALF: int := 0x8000_0000_0000_0000

  type Limb = x: int | 0 <= x < 0x1_0000_0000_0000_0000

  type Limbs = seq<Limb>

  /** `get_item` */
  function Item(s: Limbs, i: nat): Limb {
    if i < |s| then s[i] else 0
  }

  /** BASE^n: the weight of limb n, and the modulus of n limbs. */
  function Weight(n: nat): (w: nat)
    ensures w > 0
  {
    if n == 0 then 1 else BASE * Weight(n - 1)
  }

  /** The number denoted by the low n limbs. */
  function ValTo(s: Limbs, n: nat): nat {
    if n == 0 then 0 else ValTo(s, n - 1) + Item(s, n - 1) * Weight(n - 1)
  }

  function Val(s: Limbs): nat {
    ValTo(s, |s|)
  }

  function Modulus(s: Limbs): (m: nat)
    ensures m > 0
  {
    Weight(|s|)
  }

  // ---- values of limb sequences ----

  lemma WeightNext(n: nat)
    ensures Weight(n + 1) == BASE * Weight(n)
  {
  }

  lemma {:induction false} WeightAdd(a: nat, b: nat)
    ensures Weight(a + b) == Weight(a) * Weight(b)
  {
    hide Weight;
    if a == 0 {
      WeightZero();
    } else {
      WeightAdd(a - 1, b);
      WeightNext(a - 1);
      WeightNext(a - 1 + b);
      MulAssoc(BASE, Weight(a - 1), Weight(b));
    }
  }

  lemma WeightZero()
    ensures Weight(0) == 1
  {
  }

  lemma {:induction false} WeightIsPow2(n: nat)
    ensures Weight(n) == Pow2(64 * n)
  {
    hide Pow2;
    if n == 0 {
      Pow2Zero();
    } else {
      WeightIsPow2(n - 1);
      Pow2Add(64, 64 * (n - 1));
      Pow2Of64();
    }
  }

  lemma Pow2Of64()
    ensures Pow2(64) == BASE && Pow2(63) == HALF && Pow2(32) == 0x1_0000_0000
  {
    hide Pow2;
    Pow2Zero();
    Pow2Double(0);
    Pow2Add(1, 1);
    Pow2Add(2, 2);
    Pow2Add(4, 4);
    Pow2Add(8, 8);
    Pow2Add(16, 16);
    Pow2Add(32, 32);
    Pow2Double(63);
  }

  lemma ValToNext(s: Limbs, n: nat)
    ensures ValTo(s, n + 1) == ValTo(s, n) + Item(s, n) * Weight(n)
  {
  }

  lemma ValToOne(s: Limbs)
    ensures ValTo(s, 1) == Item(s, 0)
  {
    assert ValTo(s, 0) == 0 && Weight(0) == 1;
  }

  /** Only the low limbs matter. */
  lemma {:induction false} ValToSame(s: Limbs, t: Limbs, n: nat)
    requires forall i | 0 <= i < n :: Item(s, i) == Item(t, i)
    ensures ValTo(s, n) == ValTo(t, n)
  {
    if n > 0 {
      ValToSame(s, t, n - 1);
    }
  }

  lemma {:induction false} ValToBound(s: Limbs, n: nat)
    ensures ValTo(s, n) < Weight(n)
  {
    hide Weight;
    if n == 0 {
      WeightZero();
    } else {
      ValToBound(s, n - 1);
      WeightNext(n - 1);
      MulMonotone(Weight(n - 1), Item(s, n - 1), BASE - 1);
      MulDist(Weight(n - 1), BASE - 1, 1);
    }
  }

  lemma ValBound(s: Limbs)
    ensures Val(s) < Modulus(s)
  {
    ValToBound(s, |s|);
  }

  /** Limbs beyond the end add nothing. */
  lemma {:induction false} ValToBeyond(s: Limbs, n: nat)
    requires |s| <= n
    ensures ValTo(s, n) == Val(s)
  {
    if |s| < n {
      ValToBeyond(s, n - 1);
    }
  }

  /** Splitting off the limbs from k upwards. */
  function Drop(s: Limbs, k: nat): Limbs {
    if k <= |s| then s[k..] else []
  }

  lemma {:induction false} ValSplit(s: Limbs, k: nat, n: nat)
    ensures ValTo(s, k + n) == ValTo(s, k) + Weight(k) * ValTo(Drop(s, k), n)
  {
    hide Weight;
    if n > 0 {
      ValSplit(s, k, n - 1);
      WeightAdd(k, n - 1);
      SplitRing(Item(s, k + n - 1), Weight(k), Weight(n - 1), ValTo(Drop(s, k), n - 1));
    }
  }

  lemma SplitRing(x: int, p: int, w: int, v: int)
    ensures p * v + x * (p * w) == p * (v + x * w)
  {
    MulAssoc(x, p, w);
    MulAssoc(p, x, w);
    MulDist(p, v, x * w);
  }

  /** Equal values have equal limbs. */
  lemma {:induction false} ValInjective(s: Limbs, t: Limbs, n: nat)
    requires ValTo(s, n) == ValTo(t, n)
    ensures forall i | 0 <= i < n :: Item(s, i) == Item(t, i)
  {
    hide Weight;
    if n > 0 {
      var w := Weight(n - 1);
      ValToBound(s, n - 1);
      ValToBound(t, n - 1);
      DivModUnique(ValTo(s, n), w, Item(s, n - 1), ValTo(s, n - 1));
      DivModUnique(ValTo(t, n), w, Item(t, n - 1), ValTo(t, n - 1));
      ValInjective(s, t, n - 1);
    }
  }

  // ---- two's complement ----

  /** `is_negative` of a signed integer: the top bit. */
  predicate Negative(s: Limbs) {
    |s| > 0 && s[|s| - 1] >= HALF
  }

  /** The two's-complement integer the limbs denote. */
  function Signed(s: Limbs): int {
    if Negative(s) then Val(s) - Modulus(s) else Val(s)
  }

  /** A top limb decides on which side of half the modulus the value lies. */
  lemma TopDecides(x: nat, w: nat, low: nat)
    requires x < BASE && low < w
    ensures x >= HALF <==> x * w + low >= HALF * w
    ensures x * w + low < BASE * w
  {
    if x >= HALF {
      MulMonotone(w, HALF, x);
    } else {
      ScaledGap(x, HALF, w);
    }
    ScaledGap(x, BASE, w);
  }

  lemma NegativeIffHigh(s: Limbs)
    requires |s| > 0
    ensures Modulus(s) == 2 * (HALF * Weight(|s| - 1))
    ensures Negative(s) <==> 2 * Val(s) >= Modulus(s)
    ensures -(HALF * Weight(|s| - 1)) <= Signed(s) < HALF * Weight(|s| - 1)
  {
    hide Weight, ValTo;
    var n := |s| - 1;
    WeightNext(n);
    ValToBound(s, n);
    ValToNext(s, n);
    TopDecides(s[n], Weight(n), ValTo(s, n));
  }

  /** A value modulo BASE^n in range determines the signed integer. */
  lemma SignedUnique(s: Limbs, v: int)
    requires |s| > 0 && v % Modulus(s) == Val(s)
    requires -(HALF * Weight(|s| - 1)) <= v < HALF * Weight(|s| - 1)
    ensures Signed(s) == v
  {
    hide Weight;
    NegativeIffHigh(s);
    if v >= 0 {
      ModSmall(v, Modulus(s));
    } else {
      ModAddMultiple(v, 1, Modulus(s));
      ModSmall(v + Modulus(s), Modulus(s));
    }
  }

  lemma SignedModulo(s: Limbs)
    requires |s| > 0
    ensures Signed(s) % Modulus(s) == Val(s)
  {
    hide Weight;
    ValBound(s);
    ModSmall(Val(s), Modulus(s));
    ModAddMultiple(Val(s), -1, Modulus(s));
  }

  // ---- addition and subtraction in two passes ----

  /** A recorded carry, or borrow when subtracting. */
  function Carry(sub: bool, flag: bool): int {
    if !flag then 0 else if sub then -1 else 1
  }

  function Term(sub: bool, x: int): int {
    if sub then -x else x
  }

  /** The carries below limb i are rippled into the value; above, each limb still carries its own. */
  ghost predicate Rippled(sub: bool, lhs: Limbs, rhs: Limbs, res: Limbs, flags: seq<bool>, i: nat) {
    && |res| == |flags| == |lhs| && 1 <= i <= |lhs|
    && (forall j | i <= j < |lhs| :: res[j] + Carry(sub, flags[j]) * BASE == lhs[j] + Term(sub, Item(rhs, j)))
    && ValTo(res, i) + Carry(sub, flags[i - 1]) * Weight(i) == ValTo(lhs, i) + Term(sub, ValTo(rhs, i))
  }

  lemma CarryStep(low: int, sum: int, x: int, y: int, z: int, carryIn: int, carryOut: int, w: int)
    requires low + carryIn * w == sum && z + carryOut * BASE == x + y + carryIn
    ensures (low + z * w) + carryOut * (BASE * w) == sum + x * w + y * w
  {
    assert (z + carryOut * BASE) * w == (x + y + carryIn) * w;
    MulAssoc(carryOut, BASE, w);
    MulDistRight(z, carryOut * BASE, w);
    MulDistRight(x + y, carryIn, w);
    MulDistRight(x, y, w);
  }

  lemma RippleStart(sub: bool, lhs: Limbs, rhs: Limbs, res: Limbs, flags: seq<bool>)
    requires 0 < |rhs| <= |lhs| == |res| == |flags|
    requires forall j | 0 <= j < |lhs| :: res[j] + Carry(sub, flags[j]) * BASE == lhs[j] + Term(sub, Item(rhs, j))
    ensures Rippled(sub, lhs, rhs, res, flags, 1)
  {
    ValToOne(res);
    ValToOne(lhs);
    ValToOne(rhs);
    assert Weight(1) == BASE * Weight(0);
  }

  /** Consuming a carry never produces a second one out of the same limb. */
  lemma RippleRoom(sub: bool, lhs: Limbs, rhs: Limbs, res: Limbs, flags: seq<bool>, i: nat)
    requires Rippled(sub, lhs, rhs, res, flags, i) && i < |lhs| && flags[i]
    ensures if sub then res[i] != 0 else res[i] != BASE - 1
  {
  }

  lemma RippleStep(sub: bool, lhs: Limbs, rhs: Limbs, res: Limbs, flags: seq<bool>, i: nat,
                   res': Limbs, flags': seq<bool>)
    requires Rippled(sub, lhs, rhs, res, flags, i) && i < |lhs|
    requires |res'| == |flags'| == |lhs| && flags'[i - 1] == flags[i - 1]
    requires forall j | 0 <= j < |lhs| && j != i :: res'[j] == res[j] && flags'[j] == flags[j]
    requires res'[i] + Carry(sub, flags'[i]) * BASE == res[i] + Carry(sub, flags[i]) * BASE + Carry(sub, flags[i - 1])
    ensures Rippled(sub, lhs, rhs, res', flags', i + 1)
  {
    hide Weight, ValTo;
    ValToSame(res, res', i);
    ValToNext(res', i);
    ValToNext(lhs, i);
    ValToNext(rhs, i);
    WeightNext(i);
    var y := Term(sub, Item(rhs, i));
    CarryStep(ValTo(res', i), ValTo(lhs, i) + Term(sub, ValTo(rhs, i)), lhs[i], y, res'[i],
              Carry(sub, flags[i - 1]), Carry(sub, flags'[i]), Weight(i));
    assert y * Weight(i) == Term(sub, Item(rhs, i) * Weight(i));
  }

  lemma RippleEnd(sub: bool, lhs: Limbs, rhs: Limbs, res: Limbs, flags: seq<bool>)
    requires |rhs| <= |lhs| && Rippled(sub, lhs, rhs, res, flags, |lhs|)
    ensures Val(res) == (Val(lhs) + Term(sub, Val(rhs))) % Modulus(lhs)
  {
    hide Weight, ValTo;
    var n := |lhs|;
    ValToBeyond(rhs, n);
    ValToBound(res, n);
    DivModUnique(Val(lhs) + Term(sub, Val(rhs)), Weight(n), Carry(sub, flags[n - 1]), Val(res));
  }

  /** `plus`: adds limb by limb first, then ripples the recorded carries. */
  method Plus(lhs: Limbs, rhs: Limbs) returns (res: Limbs)
    requires 1 <= |rhs| <= |lhs|
    ensures |res| == |lhs|
    ensures Val(res) == (Val(lhs) + Val(rhs)) % Modulus(lhs)
  {
    hide Rippled, Val, Modulus;
    var n := |lhs|;
    res := lhs;
    var overflows := seq(n, _ => false);
    for i := 0 to |rhs|
      invariant |res| == n && |overflows| == n
      invariant forall j | 0 <= j < i :: res[j] + Carry(false, overflows[j]) * BASE == (lhs[j] as int) + rhs[j]
      invariant forall j | i <= j < n :: res[j] == lhs[j] && !overflows[j]
    {
      var sum := (res[i] + rhs[i]) % BASE;
      res := res[i := sum];
      overflows := overflows[i := sum < rhs[i]];
    }
    RippleStart(false, lhs, rhs, res, overflows);
    for i := 1 to n
      invariant |res| == n && |overflows| == n
      invariant Rippled(false, lhs, rhs, res, overflows, i)
    {
      ghost var res0, flags0 := res, overflows;
      if overflows[i] { RippleRoom(false, lhs, rhs, res, overflows, i); }
      if overflows[i - 1] {
        res := res[i := (res[i] + 1) % BASE];
        if res[i] == 0 {
          overflows := overflows[i := true];
        }
      }
      RippleStep(false, lhs, rhs, res0, flags0, i, res, overflows);
    }
    RippleEnd(false, lhs, rhs, res, overflows);
  }

  /** `minus`: the same two passes with borrows. */
  method Minus(lhs: Limbs, rhs: Limbs) returns (res: Limbs)
    requires 1 <= |rhs| <= |lhs|
    ensures |res| == |lhs|
    ensures Val(res) == (Val(lhs) - Val(rhs)) % Modulus(lhs)
  {
    hide Rippled, Val, Modulus;
    var n := |lhs|;
    res := lhs;
    var underflows := seq(n, _ => false);
    for i := 0 to |rhs|
      invariant |res| == n && |underflows| == n
      invariant forall j | 0 <= j < i :: res[j] + Carry(true, underflows[j]) * BASE == (lhs[j] as int) - rhs[j]
      invariant forall j | i <= j < n :: res[j] == lhs[j] && !underflows[j]
    {
      underflows := underflows[i := res[i] < rhs[i]];
      res := res[i := (res[i] - rhs[i]) % BASE];
    }
    RippleStart(true, lhs, rhs, res, underflows);
    for i := 1 to n
      invariant |res| == n && |underflows| == n
      invariant Rippled(true, lhs, rhs, res, underflows, i)
    {
      ghost var res0, flags0 := res, underflows;
      if underflows[i] { RippleRoom(true, lhs, rhs, res, underflows, i); }
      if underflows[i - 1] {
        if res[i] == 0 {
          underflows := underflows[i := true];
        }
        res := res[i := (res[i] - 1) % BASE];
      }
      RippleStep(true, lhs, rhs, res0, flags0, i, res, underflows);
    }
    RippleEnd(true, lhs, rhs, res, underflows);
  }

  // ---- limbwise operators ----

  /** The parts below and above bit k combine separately. */
  lemma {:induction false} OrParts(hi: nat, lo: nat, hi': nat, lo': nat, k: nat)
    requires lo < Pow2(k) && lo' < Pow2(k)
    ensures Or(hi * Pow2(k) + lo, hi' * Pow2(k) + lo') == Or(hi, hi') * Pow2(k) + Or(lo, lo')
    decreases k
  {
    hide Pow2;
    if k == 0 {
      Pow2Zero();
      OrZero(0);
    } else {
      Pow2Double(k - 1);
      OrParts(hi, lo / 2, hi', lo' / 2, k - 1);
      OrPartsStep(hi, lo, hi', lo', Pow2(k - 1));
    }
  }

  lemma OrPartsStep(hi: nat, lo: nat, hi': nat, lo': nat, h: nat)
    requires h > 0 && Or(hi * h + lo / 2, hi' * h + lo' / 2) == Or(hi, hi') * h + Or(lo / 2, lo' / 2)
    ensures Or(hi * (2 * h) + lo, hi' * (2 * h) + lo') == Or(hi, hi') * (2 * h) + Or(lo, lo')
  {
    hide Or;
    PartHalves(hi, lo, h);
    PartHalves(hi', lo', h);
    OrHalves(hi * (2 * h) + lo, hi' * (2 * h) + lo');
    OrHalves(lo, lo');
    PartHalves(Or(hi, hi'), Or(lo, lo'), h);
  }

  lemma {:induction false} AndParts(hi: nat, lo: nat, hi': nat, lo': nat, k: nat)
    requires lo < Pow2(k) && lo' < Pow2(k)
    ensures And(hi * Pow2(k) + lo, hi' * Pow2(k) + lo') == And(hi, hi') * Pow2(k) + And(lo, lo')
    decreases k
  {
    hide Pow2;
    if k == 0 {
      Pow2Zero();
      AndZero(0);
    } else {
      Pow2Double(k - 1);
      AndParts(hi, lo / 2, hi', lo' / 2, k - 1);
      AndPartsStep(hi, lo, hi', lo', Pow2(k - 1));
    }
  }

  lemma AndPartsStep(hi: nat, lo: nat, hi': nat, lo': nat, h: nat)
    requires h > 0 && And(hi * h + lo / 2, hi' * h + lo' / 2) == And(hi, hi') * h + And(lo / 2, lo' / 2)
    ensures And(hi * (2 * h) + lo, hi' * (2 * h) + lo') == And(hi, hi') * (2 * h) + And(lo, lo')
  {
    hide And;
    PartHalves(hi, lo, h);
    PartHalves(hi', lo', h);
    AndHalves(hi * (2 * h) + lo, hi' * (2 * h) + lo');
    AndHalves(lo, lo');
    PartHalves(And(hi, hi'), And(lo, lo'), h);
  }

  lemma OrHalves(x: nat, y: nat)
    ensures Or(x, y) / 2 == Or(x / 2, y / 2)
    ensures Or(x, y) % 2 == if x % 2 == 1 || y % 2 == 1 then 1 else 0
  {
  }

  lemma PartHalves(hi: nat, lo: nat, h: nat)
    requires h > 0
    ensures (hi * (2 * h) + lo) / 2 == hi * h + lo / 2
    ensures (hi * (2 * h) + lo) % 2 == lo % 2
  {
    var x := hi * h;
    assert hi * (2 * h) == 2 * x;
    assert (2 * x + lo) / 2 == x + lo / 2 && (2 * x + lo) % 2 == lo % 2;
  }

  lemma OrBelow(x: nat, y: nat, k: nat)
    requires x < Pow2(k) && y < Pow2(k)
    ensures Or(x, y) < Pow2(k)
    decreases k
  {
    if k > 0 {
      OrBelow(x / 2, y / 2, k - 1);
      OrHalves(x, y);
    } else {
      OrZero(0);
    }
  }

  lemma {:induction false} AndBelow(x: nat, y: nat)
    ensures And(x, y) <= x
    decreases x + y
  {
    if x > 0 || y > 0 {
      AndBelow(x / 2, y / 2);
      AndHalves(x, y);
    }
  }

  /** `operator_pipe` */
  method Pipe(lhs: Limbs, rhs: Limbs) returns (res: Limbs)
    requires |rhs| <= |lhs|
    ensures |res| == |lhs| && Val(res) == Or(Val(lhs), Val(rhs))
  {
    hide ValTo, Weight, Or, Pow2;
    res := seq(|lhs|, _ => 0);
    PipeStart(lhs, rhs, res);
    for i := 0 to |lhs|
      invariant |res| == |lhs|
      invariant ValTo(res, i) == Or(ValTo(lhs, i), ValTo(rhs, i))
    {
      LimbOr(lhs[i], Item(rhs, i));
      ghost var before := res;
      res := res[i := Or(lhs[i], Item(rhs, i))];
      ValToSame(before, res, i);
      PipeStep(lhs, rhs, res, i);
    }
    ValToBeyond(rhs, |lhs|);
  }

  lemma PipeStart(lhs: Limbs, rhs: Limbs, res: Limbs)
    ensures ValTo(res, 0) == Or(ValTo(lhs, 0), ValTo(rhs, 0)) && ValTo(res, 0) == And(ValTo(lhs, 0), ValTo(rhs, 0))
  {
  }

  lemma LimbOr(x: Limb, y: Limb)
    ensures Or(x, y) < BASE && And(x, y) < BASE
  {
    Pow2Of64();
    OrBelow(x, y, 64);
    AndBelow(x, y);
  }

  lemma PipeStep(lhs: Limbs, rhs: Limbs, res: Limbs, i: nat)
    requires i < |res| && i < |lhs| && res[i] == Or(lhs[i], Item(rhs, i))
    requires ValTo(res, i) == Or(ValTo(lhs, i), ValTo(rhs, i))
    ensures ValTo(res, i + 1) == Or(ValTo(lhs, i + 1), ValTo(rhs, i + 1))
  {
    hide ValTo, Weight, Or, Pow2;
    ValToNext(lhs, i);
    ValToNext(rhs, i);
    ValToNext(res, i);
    ValToBound(lhs, i);
    ValToBound(rhs, i);
    WeightIsPow2(i);
    OrParts(lhs[i], ValTo(lhs, i), Item(rhs, i), ValTo(rhs, i), 64 * i);
  }

  /** `operator_amp` */
  method Amp(lhs: Limbs, rhs: Limbs) returns (res: Limbs)
    requires |rhs| <= |lhs|
    ensures |res| == |lhs| && Val(res) == And(Val(lhs), Val(rhs))
  {
    hide ValTo, Weight, And, Pow2;
    res := seq(|lhs|, _ => 0);
    PipeStart(lhs, rhs, res);
    for i := 0 to |lhs|
      invariant |res| == |lhs|
      invariant ValTo(res, i) == And(ValTo(lhs, i), ValTo(rhs, i))
    {
      LimbOr(lhs[i], Item(rhs, i));
      ghost var before := res;
      res := res[i := And(lhs[i], Item(rhs, i))];
      ValToSame(before, res, i);
      AmpStep(lhs, rhs, res, i);
    }
    ValToBeyond(rhs, |lhs|);
  }

  lemma AmpStep(lhs: Limbs, rhs: Limbs, res: Limbs, i: nat)
    requires i < |res| && i < |lhs| && res[i] == And(lhs[i], Item(rhs, i))
    requires ValTo(res, i) == And(ValTo(lhs, i), ValTo(rhs, i))
    ensures ValTo(res, i + 1) == And(ValTo(lhs, i + 1), ValTo(rhs, i + 1))
  {
    hide ValTo, Weight, And, Pow2;
    ValToNext(lhs, i);
    ValToNext(rhs, i);
    ValToNext(res, i);
    ValToBound(lhs, i);
    ValToBound(rhs, i);
    WeightIsPow2(i);
    AndParts(lhs[i], ValTo(lhs, i), Item(rhs, i), ValTo(rhs, i), 64 * i);
  }

  /** `operator_unary_tilda` */
  method Tilda(lhs: Limbs) returns (res: Limbs)
    ensures |res| == |lhs| && Val(res) == Modulus(lhs) - 1 - Val(lhs)
  {
    hide ValTo, Weight;
    res := seq(|lhs|, _ => 0);
    TildaStart(lhs, res);
    for i := 0 to |lhs|
      invariant |res| == |lhs|
      invariant ValTo(res, i) + ValTo(lhs, i) == Weight(i) - 1
    {
      ghost var before := res;
      res := res[i := BASE - 1 - lhs[i]];
      ValToSame(before, res, i);
      ValToNext(lhs, i);
      ValToNext(res, i);
      WeightNext(i);
      MulDistRight(res[i], lhs[i], Weight(i));
      MulDistRight(BASE - 1, 1, Weight(i));
    }
  }

  lemma TildaStart(lhs: Limbs, res: Limbs)
    ensures ValTo(res, 0) + ValTo(lhs, 0) == Weight(0) - 1
  {
  }

  /** `operator_unary_minus`: the two's-complement negation. */
  method UnaryMinus(lhs: Limbs) returns (res: Limbs)
    requires |lhs| > 0
    ensures |res| == |lhs| && Val(res) == (Modulus(lhs) - Val(lhs)) % Modulus(lhs)
  {
    hide ValTo, Weight;
    var t := Tilda(lhs);
    res := Plus(t, [1]);
    ValToOne([1]);
  }

  /** `make_positive`: the magnitude, which also fits for the most negative integer when read as unsigned. */
  method MakePositive(lhs: Limbs) returns (res: Limbs)
    requires |lhs| > 0
    ensures |res| == |lhs| && Val(res) == if Signed(lhs) < 0 then -Signed(lhs) else Signed(lhs)
  {
    hide ValTo, Weight;
    NegativeIffHigh(lhs);
    ValBound(lhs);
    if Negative(lhs) {
      res := UnaryMinus(lhs);
      ModSmall(Modulus(lhs) - Val(lhs), Modulus(lhs));
    } else {
      res := lhs;
    }
  }

  /** `is_zero` */
  method IsZero(x: Limbs) returns (zero: bool)
    ensures zero <==> Val(x) == 0
  {
    hide ValTo, Weight;
    zero := true;
    ZeroTo(x, 0);
    for i := 0 to |x|
      invariant zero && ValTo(x, i) == 0
    {
      if x[i] != 0 {
        zero := false;
        NonzeroVal(x, i, |x|);
        break;
      }
      ValToNext(x, i);
    }
  }

  lemma ZeroTo(x: Limbs, n: nat)
    requires forall i | 0 <= i < n :: Item(x, i) == 0
    ensures ValTo(x, n) == 0
  {
  }

  lemma {:induction false} NonzeroVal(x: Limbs, i: nat, n: nat)
    requires i < n && Item(x, i) != 0
    ensures ValTo(x, n) > 0
    decreases n
  {
    hide Weight;
    if i < n - 1 {
      NonzeroVal(x, i, n - 1);
    } else {
      MulMonotone(Weight(i), 1, Item(x, i));
    }
  }

  // ---- comparisons ----

  /** Limbs equal above i decide the order at limb i. */
  lemma {:induction false} OrderAtLimb(x: Limbs, y: Limbs, i: nat, n: nat)
    requires i < n && Item(x, i) < Item(y, i)
    requires forall j | i < j < n :: Item(x, j) == Item(y, j)
    ensures ValTo(x, n) < ValTo(y, n)
    decreases n
  {
    hide Weight, ValTo;
    ValToNext(x, n - 1);
    ValToNext(y, n - 1);
    if i == n - 1 {
      ValToBound(x, i);
      ScaledGap(Item(x, i), Item(y, i), Weight(i));
    } else {
      OrderAtLimb(x, y, i, n - 1);
    }
  }

  /** `operator_greater` on equal widths; the signs decide first when they differ. */
  method Greater(signed: bool, lhs: Limbs, rhs: Limbs) returns (g: bool)
    requires |lhs| == |rhs| > 0
    ensures g <==> if signed then Signed(lhs) > Signed(rhs) else Val(lhs) > Val(rhs)
  {
    hide ValTo, Weight;
    NegativeIffHigh(lhs);
    NegativeIffHigh(rhs);
    ValBound(lhs);
    ValBound(rhs);
    if signed && Negative(lhs) != Negative(rhs) {
      return Negative(rhs);
    }
    var i := 0;
    while i < |lhs|
      invariant i <= |lhs|
      invariant forall j | |lhs| - i <= j < |lhs| :: lhs[j] == rhs[j]
    {
      var k := |lhs| - 1 - i;
      if lhs[k] != rhs[k] {
        if lhs[k] < rhs[k] {
          OrderAtLimb(lhs, rhs, k, |lhs|);
        } else {
          OrderAtLimb(rhs, lhs, k, |lhs|);
        }
        return lhs[k] > rhs[k];
      }
      i := i + 1;
    }
    assert lhs == rhs;
    return false;
  }

  /** `operator_less` is written out separately, with the same two stages. */
  method Less(signed: bool, lhs: Limbs, rhs: Limbs) returns (l: bool)
    requires |lhs| == |rhs| > 0
    ensures l <==> if signed then Signed(lhs) < Signed(rhs) else Val(lhs) < Val(rhs)
  {
    hide ValTo, Weight;
    NegativeIffHigh(lhs);
    NegativeIffHigh(rhs);
    ValBound(lhs);
    ValBound(rhs);
    if signed && Negative(lhs) != Negative(rhs) {
      return Negative(lhs);
    }
    var i := 0;
    while i < |lhs|
      invariant i <= |lhs|
      invariant forall j | |lhs| - i <= j < |lhs| :: lhs[j] == rhs[j]
    {
      var k := |lhs| - 1 - i;
      if lhs[k] != rhs[k] {
        if lhs[k] < rhs[k] {
          OrderAtLimb(lhs, rhs, k, |lhs|);
        } else {
          OrderAtLimb(rhs, lhs, k, |lhs|);
        }
        return lhs[k] < rhs[k];
      }
      i := i + 1;
    }
    assert lhs == rhs;
    return false;
  }
}
