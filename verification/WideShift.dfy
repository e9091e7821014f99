/** `shift_left` and `shift_right`: whole limbs first, then the bits that cross
    from one limb into the next. */
module WideShift {
  import opened Arithmetic
  import opened Bitwise
  import opened WideInteger

  lemma LimbParts(b: nat)
    requires b <= 64
    ensures Pow2(64 - b) * Pow2(b) == BASE
  {
    Pow2Add(64 - b, b);
    Pow2Of64();
  }

  /** `x << b` on one limb. */
  function ShlItem(x: Limb, b: nat): Limb
  {
    (x * Pow2(b)) % BASE
  }

  /** `x >> b` on one limb. */
  function ShrItem(x: Limb, b: nat): (y: Limb)
  {
    DivNonneg(x, Pow2(b));
    Shr(x, b)
  }

  lemma ShlItemParts(x: Limb, b: nat)
    requires b <= 64
    ensures ShlItem(x, b) == (x % Pow2(64 - b)) * Pow2(b)
    ensures (x * Pow2(b)) / BASE == x / Pow2(64 - b)
  {
    LimbParts(b);
    ModScale(x, Pow2(64 - b), Pow2(b));
  }

  lemma ShrItemBelow(x: Limb, b: nat)
    requires b <= 64
    ensures ShrItem(x, 64 - b) < Pow2(b) && ShrItem(x, b) < Pow2(64 - b)
  {
    hide Pow2;
    LimbParts(b);
    DivBound(x, Pow2(64 - b), Pow2(b));
    DivBound(x, Pow2(b), Pow2(64 - b));
  }

  /** A left-shifted limb has room for the bits coming from below. */
  lemma OrFromBelow(x: Limb, y: Limb, b: nat)
    requires b <= 64
    ensures Or(ShlItem(x, b), ShrItem(y, 64 - b)) == ShlItem(x, b) + ShrItem(y, 64 - b) < BASE
  {
    hide Pow2, Or, ShrItem;
    ShlItemParts(x, b);
    ShrItemBelow(y, b);
    OrDisjoint(x % Pow2(64 - b), ShrItem(y, 64 - b), b);
    LimbParts(b);
    ScaledGap(x % Pow2(64 - b), Pow2(64 - b), Pow2(b));
  }

  // ---- shift_left ----

  /** Limb i of the result before the whole-limb move. */
  function ShlLimb(s: Limbs, i: nat, b: nat): int
    requires b < 64
  {
    ShlItem(Item(s, i), b) + (if i == 0 then 0 else ShrItem(Item(s, i - 1), 64 - b))
  }

  /** The bits pushed out of limb i - 1 are what limb i receives. */
  lemma {:induction false} ShlPrefix(s: Limbs, t: Limbs, b: nat, m: nat)
    requires b < 64 && 0 < m && forall i | 0 <= i < m :: Item(t, i) == ShlLimb(s, i, b)
    ensures ValTo(t, m) + ShrItem(Item(s, m - 1), 64 - b) * Weight(m) == ValTo(s, m) * Pow2(b)
  {
    hide Pow2, Weight, ValTo, ShrItem, ShlItem;
    var x, w := Item(s, m - 1), Weight(m - 1);
    if m == 1 {
      ValToOne(s);
      ValToOne(t);
      WeightZero();
      WeightNext(0);
      ShlSplit(x, b);
    } else {
      ShlPrefix(s, t, b, m - 1);
      ValToNext(s, m - 1);
      ValToNext(t, m - 1);
      WeightNext(m - 1);
      ShlSplit(x, b);
      ShlRing(ValTo(t, m - 1), ValTo(s, m - 1), ShrItem(Item(s, m - 2), 64 - b), ShlItem(x, b),
              ShrItem(x, 64 - b), x, w, Pow2(b));
    }
  }

  lemma ShlSplit(x: Limb, b: nat)
    requires b < 64
    ensures ShlItem(x, b) + BASE * ShrItem(x, 64 - b) == x * Pow2(b)
  {
    ShlItemParts(x, b);
    var y := x * Pow2(b);
    assert y == BASE * (y / BASE) + y % BASE;
  }

  lemma ShlRing(t: int, s: int, from: int, kept: int, out: int, x: int, w: int, p: int)
    requires t + from * w == s * p && kept + BASE * out == x * p
    ensures (t + (kept + from) * w) + out * (BASE * w) == (s + x * w) * p
  {
    MulDistRight(kept, from, w);
    assert (kept + BASE * out) * w == (x * p) * w;
    MulDistRight(kept, BASE * out, w);
    assert (BASE * out) * w == out * (BASE * w);
    MulDistRight(s, x * w, p);
    assert (x * w) * p == (x * p) * w;
  }

  lemma ShlValue(s: Limbs, t: Limbs, k: nat, b: nat)
    requires k < |s| == |t| && b < 64
    requires forall j | 0 <= j < k :: t[j] == 0
    requires forall j | k <= j < |s| :: t[j] == ShlLimb(s, j - k, b)
    ensures Val(t) == (Val(s) * Pow2(64 * k + b)) % Modulus(s)
  {
    hide Pow2, Weight, ValTo, ShlLimb, ShrItem;
    var n := |s|;
    var m := n - k;
    ValSplit(t, k, m);
    ZeroTo(t, k);
    var high := Drop(t, k);
    forall i | 0 <= i < m
      ensures Item(high, i) == ShlLimb(s, i, b)
    {
      assert high[i] == t[k + i];
    }
    ShlPrefix(s, high, b, m);
    ValSplit(s, m, k);
    WeightAdd(k, m);
    WeightIsPow2(k);
    Pow2Add(64 * k, b);
    ValBound(t);
    ShlModulo(ValTo(high, m), ShrItem(Item(s, m - 1), 64 - b), ValTo(s, m), ValTo(Drop(s, m), k),
              Weight(k), Weight(m), Pow2(b));
  }

  lemma ShlModulo(v: int, c: int, low: int, hi: int, wk: int, wm: int, p: int)
    requires wk > 0 && wm > 0 && v + c * wm == low * p && 0 <= wk * v < wk * wm
    ensures wk * v == ((low + wm * hi) * (wk * p)) % (wk * wm)
  {
    var q := c + p * hi;
    assert (low + wm * hi) * (wk * p) == wk * ((low + wm * hi) * p);
    assert (low + wm * hi) * p == low * p + wm * (hi * p);
    assert low * p + wm * (hi * p) == v + wm * q;
    assert wk * (v + wm * q) == (wk * wm) * q + wk * v;
    DivModUnique((low + wm * hi) * (wk * p), wk * wm, q, wk * v);
  }

  /** Multiplies by 2^n modulo the width. */
  method ShiftLeft(rhs: Limbs, n: nat) returns (res: Limbs)
    requires n < 64 * |rhs|
    ensures |res| == |rhs| && Val(res) == (Val(rhs) * Pow2(n)) % Modulus(rhs)
  {
    hide Val, Modulus, Pow2, ShlItem, ShrItem, Or;
    var count := |rhs|;
    var itemsShift, bitShift := n / 64, n % 64;
    res := seq(count, _ => 0);
    if bitShift != 0 {
      var overflowShift := 64 - bitShift;
      res := res[count - 1 := ShlItem(rhs[count - 1 - itemsShift], bitShift)];
      for i := 1 to count - itemsShift
        invariant |res| == count
        invariant forall j | count - i < j < count :: res[j] == ShlLimb(rhs, j - itemsShift, bitShift)
        invariant res[count - i] == ShlItem(rhs[count - i - itemsShift], bitShift)
      {
        var from := rhs[count - 1 - itemsShift - i];
        OrFromBelow(rhs[count - i - itemsShift], from, bitShift);
        res := res[count - i := Or(res[count - i], ShrItem(from, overflowShift))];
        res := res[count - 1 - i := ShlItem(from, bitShift)];
      }
    } else {
      for i := 0 to count - itemsShift
        invariant |res| == count
        invariant forall j | count - i <= j < count :: res[j] == ShlLimb(rhs, j - itemsShift, 0)
      {
        WholeLimb(rhs, count - 1 - itemsShift - i);
        res := res[count - 1 - i := rhs[count - 1 - itemsShift - i]];
      }
    }
    for i := 0 to itemsShift
      invariant |res| == count
      invariant forall j | 0 <= j < i :: res[j] == 0
      invariant forall j | itemsShift <= j < count :: res[j] == ShlLimb(rhs, j - itemsShift, bitShift)
    {
      res := res[i := 0];
    }
    ShlValue(rhs, res, itemsShift, bitShift);
  }

  lemma WholeLimb(s: Limbs, i: nat)
    requires i < |s|
    ensures ShlLimb(s, i, 0) == s[i]
    ensures ShrLimb(s, i, 0) == s[i]
  {
    hide Pow2;
    Pow2Zero();
    Pow2Of64();
    ModSmall(s[i], BASE);
    if i > 0 {
      ModSmall(s[i - 1], BASE);
    }
    var y := Item(s, i + 1);
    DivModUnique(y * BASE, BASE, y, 0);
  }

  // ---- shift_right ----

  function ShrLimb(s: Limbs, i: nat, b: nat): int
    requires b < 64
  {
    ShrItem(Item(s, i), b) + ShlItem(Item(s, i + 1), 64 - b)
  }

  lemma {:induction false} ShrPrefix(s: Limbs, t: Limbs, b: nat, m: nat)
    requires b < 64 && forall i | 0 <= i < m :: Item(t, i) == ShrLimb(s, i, b)
    ensures ValTo(t, m) * Pow2(b) + Item(s, 0) % Pow2(b) == ValTo(s, m) + (Item(s, m) % Pow2(b)) * Weight(m)
  {
    hide Pow2, Weight, ShrItem, ShlItem;
    if m == 0 {
      WeightZero();
    } else {
      ShrPrefix(s, t, b, m - 1);
      WeightNext(m - 1);
      var x, y, p := Item(s, m - 1), Item(s, m), Pow2(b);
      ShrSplit(x, y, b);
      ShrRing(ValTo(t, m - 1), ValTo(s, m - 1), Item(s, 0) % p, x % p, y % p, x,
              ShrLimb(s, m - 1, b), Weight(m - 1), p);
    }
  }

  lemma ShrSplit(x: Limb, y: Limb, b: nat)
    requires b < 64
    ensures (ShrItem(x, b) + ShlItem(y, 64 - b)) * Pow2(b) + x % Pow2(b) == x + (y % Pow2(b)) * BASE
  {
    hide Pow2;
    var p, q := Pow2(b), Pow2(64 - b);
    ShlItemParts(y, 64 - b);
    LimbParts(b);
    MulDistRight(ShrItem(x, b), (y % p) * q, p);
    MulAssoc(y % p, q, p);
    assert x == p * (x / p) + x % p;
  }

  lemma ShrRing(t: int, s: int, x0: int, xr: int, yr: int, x: int, limb: int, w: int, p: int)
    requires t * p + x0 == s + xr * w && limb * p + xr == x + yr * BASE
    ensures (t + limb * w) * p + x0 == (s + x * w) + yr * (BASE * w)
  {
    MulDistRight(t, limb * w, p);
    assert (limb * w) * p == (limb * p) * w;
    assert (limb * p + xr) * w == (x + yr * BASE) * w;
    MulDistRight(limb * p, xr, w);
    MulDistRight(x, yr * BASE, w);
    MulAssoc(yr, BASE, w);
  }

  lemma ShrValue(s: Limbs, t: Limbs, k: nat, b: nat)
    requires k < |s| == |t| && b < 64
    requires forall j | 0 <= j < |s| - k :: t[j] == ShrLimb(s, j + k, b)
    requires forall j | |s| - k <= j < |s| :: t[j] == 0
    ensures Val(t) == Val(s) / Pow2(64 * k + b)
  {
    hide Pow2, Weight, ValTo, ShrLimb;
    var m := |s| - k;
    var high := Drop(s, k);
    ValSplit(s, k, m);
    ValToBound(s, k);
    DivModUnique(Val(s), Weight(k), ValTo(high, m), ValTo(s, k));
    forall i | 0 <= i < m
      ensures Item(t, i) == ShrLimb(high, i, b)
    {
      ShrLimbDrop(s, k, i, b);
    }
    ShrPrefix(high, t, b, m);
    ValSplit(t, m, k);
    ZeroTo(Drop(t, m), k);
    var p := Pow2(b);
    ModSmall(0, p);
    WeightIsPow2(k);
    Pow2Add(64 * k, b);
    DivModUnique(ValTo(high, m), p, ValTo(t, m), Item(high, 0) % p);
    DivDiv(Val(s), Weight(k), p);
  }

  lemma ShrLimbDrop(s: Limbs, k: nat, i: nat, b: nat)
    requires k < |s| && i < |s| - k && b < 64
    ensures ShrLimb(Drop(s, k), i, b) == ShrLimb(s, i + k, b)
  {
    assert Item(Drop(s, k), i) == Item(s, i + k) && Item(Drop(s, k), i + 1) == Item(s, i + k + 1);
  }

  /** Filling with ones from above adds a multiple of the shifted width. */
  lemma {:induction false} FillValue(t0: Limbs, t: Limbs, k: nat, b: nat, j: nat)
    requires k < |t0| == |t| && b < 64 && |t0| - k <= j <= |t0|
    requires forall i | 0 <= i < |t0| - 1 - k :: t[i] == t0[i]
    requires t[|t0| - 1 - k] == t0[|t0| - 1 - k] + (BASE - Pow2(64 - b))
    requires forall i | |t0| - k <= i < |t0| :: t0[i] == 0 && t[i] == BASE - 1
    ensures ValTo(t, j) == ValTo(t0, j) + Weight(j) - Pow2(64 - b) * Weight(|t0| - 1 - k)
  {
    hide Pow2, Weight, ValTo;
    var m := |t0| - k;
    ValToNext(t, j - 1);
    ValToNext(t0, j - 1);
    WeightNext(j - 1);
    if j == m {
      ValToSame(t0, t, m - 1);
      FillRing(t0[m - 1], BASE, Pow2(64 - b), Weight(m - 1));
    } else {
      FillValue(t0, t, k, b, j - 1);
      FillRing(0, BASE, 1, Weight(j - 1));
    }
  }

  lemma FillTotal(t0: Limbs, t: Limbs, k: nat, b: nat)
    requires k < |t0| == |t| && b < 64
    requires forall i | 0 <= i < |t0| - 1 - k :: t[i] == t0[i]
    requires t[|t0| - 1 - k] == t0[|t0| - 1 - k] + (BASE - Pow2(64 - b))
    requires forall i | |t0| - k <= i < |t0| :: t0[i] == 0 && t[i] == BASE - 1
    ensures Val(t) == Val(t0) + Weight(|t0|) - Pow2(64 - b) * Weight(|t0| - 1 - k)
  {
    FillValue(t0, t, k, b, |t0|);
  }

  lemma FillRing(x: int, a: int, q: int, w: int)
    ensures (x + (a - q)) * w == x * w + a * w - q * w
  {
  }

  /** The mask or-ed into the top shifted limb of a negative number. */
  lemma FillItem(x: Limb, b: nat)
    requires 0 < b < 64 && x < Pow2(64 - b)
    ensures Or(x, ShlItem(BASE - 1, 64 - b)) == x + (BASE - Pow2(64 - b)) < BASE
  {
    hide Pow2, Or;
    var p, q := Pow2(b), Pow2(64 - b);
    LimbParts(b);
    ShlItemParts(BASE - 1, 64 - b);
    assert BASE - 1 == p * (q - 1) + (p - 1) by { MulDist(p, q, -1); }
    DivModUnique(BASE - 1, p, q - 1, p - 1);
    OrDisjoint(p - 1, x, 64 - b);
    OrCommutes(x, (p - 1) * q);
    MulDistRight(p, -1, q);
  }

  /** The shifted items; those above them keep no meaning. */
  method ShiftItems(rhs: Limbs, itemsShift: nat, bitShift: nat) returns (res: Limbs)
    requires itemsShift < |rhs| && bitShift < 64
    ensures |res| == |rhs|
    ensures forall j | 0 <= j < |rhs| - itemsShift :: res[j] == ShrLimb(rhs, j + itemsShift, bitShift)
  {
    hide Pow2, ShlItem, ShrItem, Or;
    var count := |rhs|;
    res := seq(count, _ => 0);
    if bitShift != 0 {
      var overflowShift := 64 - bitShift;
      res := res[0 := ShrItem(rhs[itemsShift], bitShift)];
      for i := 1 to count - itemsShift
        invariant |res| == count
        invariant forall j | 0 <= j < i - 1 :: res[j] == ShrLimb(rhs, j + itemsShift, bitShift)
        invariant res[i - 1] == ShrItem(rhs[i - 1 + itemsShift], bitShift)
      {
        var from := rhs[itemsShift + i];
        OrFromAbove(rhs[i - 1 + itemsShift], from, bitShift);
        res := res[i - 1 := Or(res[i - 1], ShlItem(from, overflowShift))];
        res := res[i := ShrItem(from, bitShift)];
      }
      TopLimb(rhs, bitShift);
    } else {
      for i := 0 to count - itemsShift
        invariant |res| == count
        invariant forall j | 0 <= j < i :: res[j] == ShrLimb(rhs, j + itemsShift, 0)
      {
        WholeLimb(rhs, itemsShift + i);
        res := res[i := rhs[itemsShift + i]];
      }
    }
  }

  /** The sign of a negative number is filled in from the left. */
  method FillOnes(shifted: Limbs, itemsShift: nat, bitShift: nat) returns (res: Limbs)
    requires itemsShift < |shifted| && bitShift < 64
    requires bitShift != 0 ==> shifted[|shifted| - 1 - itemsShift] < Pow2(64 - bitShift)
    ensures |res| == |shifted|
    ensures forall j | 0 <= j < |shifted| - 1 - itemsShift :: res[j] == shifted[j]
    ensures res[|shifted| - 1 - itemsShift]
         == shifted[|shifted| - 1 - itemsShift] + (BASE - Pow2(64 - bitShift))
    ensures forall j | |shifted| - itemsShift <= j < |shifted| :: res[j] == BASE - 1
  {
    hide Pow2, ShlItem, Or;
    var count, top := |shifted|, |shifted| - 1 - itemsShift;
    res := shifted;
    if bitShift != 0 {
      FillItem(res[top], bitShift);
      res := res[top := Or(res[top], ShlItem(BASE - 1, 64 - bitShift))];
    } else {
      Pow2Of64();
    }
    for i := 0 to itemsShift
      invariant |res| == count
      invariant forall j | 0 <= j < top :: res[j] == shifted[j]
      invariant res[top] == shifted[top] + (BASE - Pow2(64 - bitShift))
      invariant forall j | count - i <= j < count :: res[j] == BASE - 1
    {
      res := res[count - 1 - i := BASE - 1];
    }
  }

  /** Divides by 2^n rounding down; a signed negative number is filled with ones. */
  method ShiftRight(signed: bool, rhs: Limbs, n: nat) returns (res: Limbs)
    requires n < 64 * |rhs|
    ensures |res| == |rhs|
    ensures !signed ==> Val(res) == Val(rhs) / Pow2(n)
    ensures signed ==> Signed(res) == Signed(rhs) / Pow2(n)
  {
    hide Val, Modulus, Signed, Pow2, ShrLimb, Or;
    var count := |rhs|;
    var itemsShift, bitShift := n / 64, n % 64;
    res := ShiftItems(rhs, itemsShift, bitShift);
    ghost var zeroed: Limbs := res[..count - itemsShift] + seq(itemsShift, _ => 0);
    ShrValue(rhs, zeroed, itemsShift, bitShift);
    if signed && Negative(rhs) {
      TopShifted(rhs, bitShift);
      res := FillOnes(res, itemsShift, bitShift);
      FillTotal(zeroed, res, itemsShift, bitShift);
      FloorNegative(rhs, zeroed, res, itemsShift, bitShift);
    } else {
      for i := 0 to itemsShift
        invariant |res| == count
        invariant forall j | 0 <= j < count - itemsShift :: res[j] == zeroed[j]
        invariant forall j | count - i <= j < count :: res[j] == 0
      {
        res := res[count - 1 - i := 0];
      }
      assert res == zeroed;
      FloorPositive(signed, rhs, res, n);
    }
  }

  lemma OrFromAbove(x: Limb, y: Limb, b: nat)
    requires 0 < b < 64
    ensures Or(ShrItem(x, b), ShlItem(y, 64 - b)) == ShrItem(x, b) + ShlItem(y, 64 - b) < BASE
  {
    hide Pow2, Or, ShrItem, ShlItem;
    OrFromBelow(y, x, 64 - b);
    OrCommutes(ShrItem(x, b), ShlItem(y, 64 - b));
  }

  lemma TopLimb(s: Limbs, b: nat)
    requires |s| > 0 && b < 64
    ensures ShrLimb(s, |s| - 1, b) == ShrItem(s[|s| - 1], b)
  {
    ModSmall(0, BASE);
  }

  lemma TopShifted(s: Limbs, b: nat)
    requires |s| > 0 && b < 64
    ensures ShrLimb(s, |s| - 1, b) < Pow2(64 - b)
  {
    TopLimb(s, b);
    ShrItemBelow(s[|s| - 1], b);
  }

  lemma FloorPositive(signed: bool, s: Limbs, t: Limbs, n: nat)
    requires |s| == |t| > 0 && Val(t) == Val(s) / Pow2(n) && (signed ==> !Negative(s))
    ensures signed ==> Signed(t) == Signed(s) / Pow2(n)
  {
    hide Weight, Val, Pow2;
    if signed {
      NegativeIffHigh(s);
      NegativeIffHigh(t);
      DivNonneg(Val(s), Pow2(n));
    }
  }

  lemma FloorNegative(s: Limbs, t0: Limbs, t: Limbs, k: nat, b: nat)
    requires k < |s| == |t0| == |t| && b < 64 && Negative(s)
    requires Val(t0) == Val(s) / Pow2(64 * k + b)
    requires Val(t) == Val(t0) + Weight(|s|) - Pow2(64 - b) * Weight(|s| - 1 - k)
    ensures Signed(t) == Signed(s) / Pow2(64 * k + b)
  {
    hide Weight, Val, Pow2;
    var n, d, c := |s|, Pow2(64 * k + b), Pow2(64 - b) * Weight(|s| - 1 - k);
    assert Weight(n) == d * c by { WeightParts(n, k, b); }
    NegativeIffHigh(s);
    ValBound(s);
    ValBound(t);
    assert Signed(s) == Val(s) + d * (-c);
    ModAddMultiple(Val(s), -c, d);
    var v := Signed(s) / d;
    assert v == Val(t) - Weight(n);
    DivMonotone(Signed(s), -1, d);
    DivModUnique(-1, d, -1, d - 1);
    FloorBound(Signed(s), d);
    ModAddMultiple(Val(t), -1, Weight(n));
    ModSmall(Val(t), Weight(n));
    SignedUnique(t, v);
  }

  lemma FloorBound(x: int, d: int)
    requires x < 0 < d
    ensures x <= x / d < 0
  {
    var q := x / d;
    var r := x % d;
    assert x == d * q + r;
    if q >= 0 {
      MulMonotone(d, 0, q);
    }
    var k := -(q + 1);
    MulMonotone(k, 1, d);
    assert d * q + d == -(k * d);
  }

  lemma WeightParts(n: nat, k: nat, b: nat)
    requires k < n && b < 64
    ensures Weight(n) == Pow2(64 * k + b) * (Pow2(64 - b) * Weight(n - 1 - k))
  {
    hide Weight, Pow2;
    WeightIsPow2(n);
    WeightIsPow2(n - 1 - k);
    Pow2Add(64 - b, 64 * (n - 1 - k));
    Pow2Add(64 * k + b, 64 - b + 64 * (n - 1 - k));
  }
}
