/** `uint_x4`: 128-bit unsigned integers emulated with four 32-bit words, as the
    generators use them where the compiler has no such type. */
module UInt128 {
  import opened Arithmetic
  import opened Bitwise

  const B: int := 0x1_0000_0000
  const B2: int := 0x1_0000_0000_0000_0000
  const B3: int := 0x1_0000_0000_0000_0000_0000_0000
  const B4: int := 0x1_0000_0000_0000_0000_0000_0000_0000_0000

  type Word = x: int | 0 <= x < 0x1_0000_0000

  /** The words v0 to v3, least significant first. */
  type Words = s: seq<Word> | |s| == 4 witness [0, 0, 0, 0]

  function Val(s: Words): (v: nat)
    ensures v < B4
  {
    s[0] + s[1] * B + s[2] * B2 + s[3] * B3
  }

  /** The double words v01 and v23. */
  function Low(s: Words): nat {
    s[0] + s[1] * B
  }

  function High(s: Words): nat {
    s[2] + s[3] * B
  }

  // ---- addition and subtraction ----

  function Bit(b: bool): int {
    if b then 1 else 0
  }

  /** `addwithcarry`: detects the carry of either partial sum by comparison. */
  method AddWithCarry(x: Word, y: Word, carryIn: bool) returns (result: Word, carryOut: bool)
    ensures result + Bit(carryOut) * B == (x as int) + y + Bit(carryIn)
  {
    var half := (y + Bit(carryIn)) % B;
    result := (x + half) % B;
    carryOut := half < y || result < x;
  }

  /** `subwithcarry` */
  method SubWithCarry(x: Word, y: Word, carryIn: bool) returns (result: Word, carryOut: bool)
    ensures result - Bit(carryOut) * B == (x as int) - y - Bit(carryIn)
  {
    var half := (y + Bit(carryIn)) % B;
    result := (x - half) % B;
    carryOut := half < y || result > x;
  }

  method Plus(a: Words, b: Words) returns (r: Words)
    ensures Val(r) == (Val(a) + Val(b)) % B4
  {
    var r0, c0 := AddWithCarry(a[0], b[0], false);
    var r1, c1 := AddWithCarry(a[1], b[1], c0);
    var r2, c2 := AddWithCarry(a[2], b[2], c1);
    var r3, c3 := AddWithCarry(a[3], b[3], c2);
    r := [r0, r1, r2, r3];
    DivModUnique(Val(a) + Val(b), B4, Bit(c3), Val(r));
  }

  method Minus(a: Words, b: Words) returns (r: Words)
    ensures Val(r) == (Val(a) - Val(b)) % B4
  {
    var r0, c0 := SubWithCarry(a[0], b[0], false);
    var r1, c1 := SubWithCarry(a[1], b[1], c0);
    var r2, c2 := SubWithCarry(a[2], b[2], c1);
    var r3, c3 := SubWithCarry(a[3], b[3], c2);
    r := [r0, r1, r2, r3];
    DivModUnique(Val(a) - Val(b), B4, -Bit(c3), Val(r));
  }

  // ---- multiplication ----

  /** The carry chain of `operator*`, in the order of the source, from the four
      products of low words and the sum of the cross products of double words. */
  method CarryChain(a0b0: nat, a1b0: nat, a0b1: nat, a1b1: nat, cross: nat) returns (r: Words)
    requires a0b0 < B2 && a1b0 < B2 && a0b1 < B2 && a1b1 < B2
    ensures Val(r) == (a0b0 + (a1b0 + a0b1) * B + (a1b1 + cross) * B2) % B4
  {
    hide Val;
    var v1, v2, v3, c3 := AddA1B0(a0b0, a1b0);
    var d2, d5: bool;
    v1, v2, v3, d2, d5 := AddA0B1(v1, v2, v3, a0b1);
    var e1, e2: bool;
    v2, e1 := AddWithCarry(v2, a1b1 % B, false);
    v3, e2 := AddWithCarry(v3, a1b1 / B, e1);
    var v0 := a0b0 % B;
    var high := v2 + v3 * B + cross;
    r := [v0, v1, (high % B2) % B, (high % B2) / B];
    ChainEnd(v0, v1, high, Bit(c3) + Bit(d2) + Bit(d5) + Bit(e2),
             a0b0 + (a1b0 + a0b1) * B + (a1b1 + cross) * B2);
  }

  method AddA1B0(a0b0: nat, a1b0: nat) returns (v1: Word, v2: Word, v3: Word, c3: bool)
    requires a0b0 < B2 && a1b0 < B2
    ensures a0b0 % B + v1 * B + v2 * B2 + v3 * B3 + Bit(c3) * B4 == a0b0 + a1b0 * B
  {
    var c1, c2: bool;
    v1, v2, v3 := a0b0 / B, a1b0 / B, 0;
    v1, c1 := AddWithCarry(v1, a1b0 % B, false);
    v2, c2 := AddWithCarry(v2, 0, c1);
    v3, c3 := AddWithCarry(v3, 0, c2);
  }

  method AddA0B1(u1: Word, u2: Word, u3: Word, a0b1: nat)
      returns (v1: Word, v2: Word, v3: Word, d2: bool, d5: bool)
    requires a0b1 < B2
    ensures v1 * B + v2 * B2 + v3 * B3 + (Bit(d2) + Bit(d5)) * B4 == u1 * B + u2 * B2 + u3 * B3 + a0b1 * B
  {
    var d1, d3, d4: bool;
    v2, d1 := AddWithCarry(u2, a0b1 / B, false);
    v3, d2 := AddWithCarry(u3, 0, d1);
    v1, d3 := AddWithCarry(u1, a0b1 % B, false);
    v2, d4 := AddWithCarry(v2, 0, d3);
    v3, d5 := AddWithCarry(v3, 0, d4);
  }

  lemma ChainEnd(v0: Word, v1: Word, high: nat, lost: int, total: int)
    requires total == v0 + v1 * B + high * B2 + lost * B4
    ensures Val([v0, v1, (high % B2) % B, (high % B2) / B]) == total % B4
  {
    var r := [v0, v1, (high % B2) % B, (high % B2) / B];
    DivModUnique(total, B4, lost + high / B2, Val(r));
  }

  function Product(a: nat, b: nat): nat {
    a * b
  }

  lemma ProductBelow(a: nat, b: nat)
    requires a < B && b < B
    ensures Product(a, b) < B2
  {
    MulMonotone(a, b, B - 1);
    MulMonotone(B - 1, a, B - 1);
  }

  /** `operator*` */
  method Times(a: Words, b: Words) returns (r: Words)
    ensures Val(r) == (Val(a) * Val(b)) % B4
  {
    hide Product, Val;
    ProductBelow(a[0], b[0]);
    ProductBelow(a[1], b[0]);
    ProductBelow(a[0], b[1]);
    ProductBelow(a[1], b[1]);
    r := CarryChain(Product(a[0], b[0]), Product(a[1], b[0]), Product(a[0], b[1]), Product(a[1], b[1]),
                    Product(Low(a), High(b)) + Product(High(a), Low(b)));
    ProductModulo(a, b);
  }

  lemma ProductModulo(a: Words, b: Words)
    ensures (Val(a) * Val(b)) % B4
         == (Product(a[0], b[0]) + (Product(a[1], b[0]) + Product(a[0], b[1])) * B
             + (Product(a[1], b[1]) + (Product(Low(a), High(b)) + Product(High(a), Low(b)))) * B2) % B4
  {
    SplitProduct(Low(a), High(a), Low(b), High(b));
    WordProduct(a[0], a[1], b[0], b[1], Low(a), Low(b));
    assert Val(a) == Low(a) + High(a) * B2 && Val(b) == Low(b) + High(b) * B2;
    Regroup(Low(a) * Low(b), Product(a[0], b[0]), Product(a[1], b[0]) + Product(a[0], b[1]), Product(a[1], b[1]),
            Low(a) * High(b) + High(a) * Low(b));
  }

  lemma SplitProduct(al: int, ah: int, bl: int, bh: int)
    ensures ((al + ah * B2) * (bl + bh * B2)) % B4 == (al * bl + (al * bh + ah * bl) * B2) % B4
  {
    var x, y := ah * B2, bh * B2;
    assert (al + x) * (bl + y) == al * bl + al * y + x * bl + x * y;
    MulAssoc(al, bh, B2);
    assert x * bl == (ah * bl) * B2;
    assert x * y == B4 * (ah * bh);
    ModSame((al + x) * (bl + y), al * bl + (al * bh + ah * bl) * B2, ah * bh, B4);
  }

  lemma WordProduct(a0: int, a1: int, b0: int, b1: int, al: int, bl: int)
    requires al == a0 + a1 * B && bl == b0 + b1 * B
    ensures al * bl == a0 * b0 + (a1 * b0 + a0 * b1) * B + (a1 * b1) * B2
  {
    var x, y := a1 * B, b1 * B;
    assert (a0 + x) * (b0 + y) == a0 * b0 + a0 * y + x * b0 + x * y;
    MulAssoc(a0, b1, B);
    assert x * b0 == (a1 * b0) * B;
    assert x * y == (a1 * b1) * B2;
  }

  lemma Regroup(p: int, p00: int, s: int, w: int, u: int)
    requires p == p00 + s * B + w * B2
    ensures p + u * B2 == p00 + s * B + (w + u) * B2
  {
  }

  // ---- shifts ----

  lemma WordParts(m: nat)
    requires m <= 32
    ensures Pow2(32 - m) * Pow2(m) == B
  {
    Pow2Add(32 - m, m);
    Pow2Of32();
  }

  lemma Pow2Of32()
    ensures Pow2(32) == B && Pow2(64) == B2 && Pow2(96) == B3 && Pow2(128) == B4
  {
    hide Pow2;
    Pow2Zero();
    Pow2Double(0);
    Pow2Add(1, 1);
    Pow2Add(2, 2);
    Pow2Add(4, 4);
    Pow2Add(8, 8);
    Pow2Add(16, 16);
    Pow2Add(32, 32);
    Pow2Add(32, 64);
    Pow2Add(64, 64);
  }

  /** The word kept by a left shift, and the bits it passes on. */
  function Kept(x: Word, m: nat): Word {
    (x * Pow2(m)) % B
  }

  function Passed(x: Word, m: nat): (y: Word)
    requires m <= 32
  {
    DivNonneg(x, Pow2(32 - m));
    x / Pow2(32 - m)
  }

  lemma KeptPassed(x: Word, m: nat)
    requires m <= 32
    ensures Kept(x, m) + B * Passed(x, m) == x * Pow2(m)
    ensures Kept(x, m) == (x % Pow2(32 - m)) * Pow2(m) && Passed(x, m) < Pow2(m)
  {
    hide Pow2;
    var p, q := Pow2(m), Pow2(32 - m);
    WordParts(m);
    ModScale(x, q, p);
    DivBound(x, q, p);
  }

  lemma OrKept(x: Word, y: Word, m: nat)
    requires m <= 32
    ensures Or(Kept(x, m), Passed(y, m)) == Kept(x, m) + Passed(y, m) < B
  {
    hide Pow2, Or, Kept, Passed;
    KeptPassed(x, m);
    KeptPassed(y, m);
    OrDisjoint(x % Pow2(32 - m), Passed(y, m), m);
    WordParts(m);
    ScaledGap(x % Pow2(32 - m), Pow2(32 - m), Pow2(m));
  }

  /** Word i of a left shift by fewer than 32 bits. */
  function ShlWord(v: Words, i: nat, m: nat): int
    requires i < 4 && m < 32
  {
    Kept(v[i], m) + (if i == 0 then 0 else Passed(v[i - 1], m))
  }

  /** `operator<<`, for every shift an 8-bit count can hold. */
  method ShiftLeft(v: Words, shift: nat) returns (r: Words)
    requires shift < 256
    ensures Val(r) == (Val(v) * Pow2(shift)) % B4
  {
    hide Pow2, Or, Kept, Passed, Val;
    r := [0, 0, 0, 0];
    var shiftdiv, shiftmod := shift / 32, shift % 32;
    if shiftmod != 0 {
      var carryover: Word := 0;
      var out := shiftdiv;
      while out < 4
        invariant shiftdiv <= out && (out <= 4 || out == shiftdiv)
        invariant out <= 4 ==> carryover == if out == shiftdiv then 0 else Passed(v[out - shiftdiv - 1], shiftmod)
        invariant forall j | 0 <= j < shiftdiv && j < 4 :: r[j] == 0
        invariant forall j | shiftdiv <= j < out && j < 4 :: r[j] == ShlWord(v, j - shiftdiv, shiftmod)
      {
        var x := v[out - shiftdiv];
        OrZero(Kept(x, shiftmod));
        if out > shiftdiv { OrKept(x, v[out - shiftdiv - 1], shiftmod); }
        r := r[out := Or(Kept(x, shiftmod), carryover)];
        carryover := Passed(x, shiftmod);
        out := out + 1;
      }
    } else {
      var out := shiftdiv;
      while out < 4
        invariant shiftdiv <= out && (out <= 4 || out == shiftdiv)
        invariant forall j | 0 <= j < shiftdiv && j < 4 :: r[j] == 0
        invariant forall j | shiftdiv <= j < out && j < 4 :: r[j] == ShlWord(v, j - shiftdiv, 0)
      {
        WholeWord(v, out - shiftdiv);
        r := r[out := v[out - shiftdiv]];
        out := out + 1;
      }
    }
    if shiftdiv < 4 {
      ShlValue(v, r, shiftdiv, shiftmod);
    } else {
      ShiftedOut(v, r, shift);
    }
  }

  /** Shifting by the width or more leaves nothing, in either direction. */
  lemma ShiftedOut(v: Words, r: Words, shift: nat)
    requires shift >= 128 && forall j | 0 <= j < 4 :: r[j] == 0
    ensures Val(r) == 0 && (Val(v) * Pow2(shift)) % B4 == 0 && Val(v) / Pow2(shift) == 0
  {
    hide Pow2;
    Pow2Of32();
    Pow2Add(shift - 128, 128);
    var x := Val(v) * Pow2(shift - 128);
    MulAssoc(Val(v), Pow2(shift - 128), B4);
    ModAddMultiple(0, x, B4);
    Pow2Monotone(128, shift);
    ModSmall(Val(v), Pow2(shift));
  }

  lemma WholeWord(v: Words, i: nat)
    requires i < 4
    ensures ShlWord(v, i, 0) == v[i] && ShrWord(v, i, 0) == v[i]
  {
    hide Pow2;
    Pow2Zero();
    Pow2Of32();
    KeptPassed(v[i], 0);
    if i > 0 { KeptPassed(v[i - 1], 0); }
    ModSmall(v[i], B);
    var y: Word := if i < 3 then v[i + 1] else 0;
    DivModUnique(y * B, B, y, 0);
  }

  lemma ShlValue(v: Words, r: Words, k: nat, m: nat)
    requires k < 4 && m < 32
    requires forall j | 0 <= j < k :: r[j] == 0
    requires forall j | k <= j < 4 :: r[j] == ShlWord(v, j - k, m)
    ensures Val(r) == (Val(v) * Pow2(32 * k + m)) % B4
  {
    hide Pow2, ShlWord, Passed, Val;
    Pow2Add(m, 32 * k);
    ShlSum(v, m);
    ShlWrap(v, r, k, m, Val(v) * Pow2(m));
    MulAssoc(Val(v), Pow2(m), Pow2(32 * k));
  }

  lemma ShlSum(v: Words, m: nat)
    requires m < 32
    ensures Val(v) * Pow2(m)
         == ShlWord(v, 0, m) + ShlWord(v, 1, m) * B + ShlWord(v, 2, m) * B2 + ShlWord(v, 3, m) * B3
            + Passed(v[3], m) * B4
  {
    hide Pow2, Kept, Passed, Val;
    KeptPassed(v[0], m);
    KeptPassed(v[1], m);
    KeptPassed(v[2], m);
    KeptPassed(v[3], m);
    ValTimes(v, Pow2(m));
  }

  /** Dropping the words that leave at the top is the remainder modulo 2^128. */
  lemma ShlWrap(v: Words, r: Words, k: nat, m: nat, t: int)
    requires k < 4 && m < 32
    requires forall j | 0 <= j < k :: r[j] == 0
    requires forall j | k <= j < 4 :: r[j] == ShlWord(v, j - k, m)
    requires t == ShlWord(v, 0, m) + ShlWord(v, 1, m) * B + ShlWord(v, 2, m) * B2 + ShlWord(v, 3, m) * B3
                  + Passed(v[3], m) * B4
    ensures Val(r) == (t * Pow2(32 * k)) % B4
  {
    hide Pow2, ShlWord, Passed;
    Pow2Of32();
    Pow2Zero();
    var t1, t2, t3, t4 := ShlWord(v, 1, m), ShlWord(v, 2, m), ShlWord(v, 3, m), Passed(v[3], m);
    if k == 0 {
      DivModUnique(t, B4, t4, Val(r));
    } else if k == 1 {
      DivModUnique(t * B, B4, t3 + t4 * B, Val(r));
    } else if k == 2 {
      DivModUnique(t * B2, B4, t2 + t3 * B + t4 * B2, Val(r));
    } else {
      DivModUnique(t * B3, B4, t1 + t2 * B + t3 * B2 + t4 * B3, Val(r));
    }
  }

  lemma ValTimes(v: Words, p: int)
    ensures Val(v) * p == v[0] * p + (v[1] * p) * B + (v[2] * p) * B2 + (v[3] * p) * B3
  {
    MulDistRight(v[0] + v[1] * B + v[2] * B2, v[3] * B3, p);
    MulDistRight(v[0] + v[1] * B, v[2] * B2, p);
    MulDistRight(v[0], v[1] * B, p);
  }

  /** Word i of a right shift by fewer than 32 bits. */
  function ShrWord(v: Words, i: nat, m: nat): int
    requires i < 4 && m < 32
  {
    Passed(v[i], 32 - m) + (if i < 3 then Kept(v[i + 1], 32 - m) else 0)
  }

  /** `operator>>`; from 160 on the source's 8-bit word index runs out of range. */
  method ShiftRight(v: Words, shift: nat) returns (r: Words)
    requires shift < 160
    ensures Val(r) == Val(v) / Pow2(shift)
  {
    hide Pow2, Or, Kept, Passed, Val;
    r := [0, 0, 0, 0];
    var shiftdiv, shiftmod := shift / 32, shift % 32;
    if shiftmod != 0 {
      var carryover: Word := 0;
      var out := 4 - shiftdiv;
      while out != 0
        invariant 0 <= out <= 4 - shiftdiv
        invariant carryover == if out == 4 - shiftdiv then 0 else Kept(v[out + shiftdiv], 32 - shiftmod)
        invariant forall j | 4 - shiftdiv <= j < 4 :: r[j] == 0
        invariant forall j | out <= j < 4 - shiftdiv :: r[j] == ShrWord(v, j + shiftdiv, shiftmod)
      {
        out := out - 1;
        var x := v[out + shiftdiv];
        OrZero(Passed(x, 32 - shiftmod));
        if out + shiftdiv < 3 {
          OrKept(v[out + shiftdiv + 1], x, 32 - shiftmod);
          OrCommutes(Passed(x, 32 - shiftmod), carryover);
        }
        r := r[out := Or(Passed(x, 32 - shiftmod), carryover)];
        carryover := Kept(x, 32 - shiftmod);
      }
    } else {
      var out := 4 - shiftdiv;
      while out != 0
        invariant 0 <= out <= 4 - shiftdiv
        invariant forall j | 4 - shiftdiv <= j < 4 :: r[j] == 0
        invariant forall j | out <= j < 4 - shiftdiv :: r[j] == ShrWord(v, j + shiftdiv, 0)
      {
        out := out - 1;
        WholeWord(v, out + shiftdiv);
        r := r[out := v[out + shiftdiv]];
      }
    }
    if shiftdiv < 4 {
      ShrValue(v, r, shiftdiv, shiftmod);
    } else {
      ShiftedOut(v, r, shift);
    }
  }

  lemma ShrValue(v: Words, r: Words, k: nat, m: nat)
    requires k < 4 && m < 32
    requires forall j | 4 - k <= j < 4 :: r[j] == 0
    requires forall j | 0 <= j < 4 - k :: r[j] == ShrWord(v, j + k, m)
    ensures Val(r) == Val(v) / Pow2(32 * k + m)
  {
    hide Pow2, ShrWord, Val;
    Pow2Add(32 * k, m);
    ValTimes(r, Pow2(m));
    ShrSum(v, r, k, m, Val(r) * Pow2(m));
    MulAssoc(Pow2(32 * k), Pow2(m), Val(r));
    ShrRest(v, k, m, Pow2(m), Pow2(32 * k), Val(r));
  }

  lemma ShrSum(v: Words, r: Words, k: nat, m: nat, t: int)
    requires k < 4 && m < 32
    requires forall j | 4 - k <= j < 4 :: r[j] == 0
    requires forall j | 0 <= j < 4 - k :: r[j] == ShrWord(v, j + k, m)
    requires t == r[0] * Pow2(m) + (r[1] * Pow2(m)) * B + (r[2] * Pow2(m)) * B2 + (r[3] * Pow2(m)) * B3
    ensures t * Pow2(32 * k) + Below(v, k) + (v[k] % Pow2(m)) * Pow2(32 * k) == Val(v)
  {
    hide Pow2, ShrWord, Cut, Below, Val;
    PlacePow2(k);
    var p := Pow2(m);
    ShrShifted(v, r, k, m, 0);
    ShrShifted(v, r, k, m, 1);
    ShrShifted(v, r, k, m, 2);
    ShrShifted(v, r, k, m, 3);
    ShrLinear(v, k, p, r[0] * p, r[1] * p, r[2] * p, r[3] * p);
  }

  lemma ShrShifted(v: Words, r: Words, k: nat, m: nat, j: nat)
    requires k < 4 && m < 32 && j < 4
    requires forall j | 4 - k <= j < 4 :: r[j] == 0
    requires forall j | 0 <= j < 4 - k :: r[j] == ShrWord(v, j + k, m)
    ensures r[j] * Pow2(m) == if j + k < 4 then Cut(v, j + k, Pow2(m)) else 0
  {
    hide Pow2, ShrWord;
    if j + k < 4 {
      ShrWordTimes(v, j + k, m);
    }
  }

  function Place(k: nat): int {
    if k == 0 then 1 else if k == 1 then B else if k == 2 then B2 else B3
  }

  lemma PlacePow2(k: nat)
    requires k < 4
    ensures Place(k) == Pow2(32 * k)
  {
    hide Pow2;
    Pow2Of32();
    Pow2Zero();
  }

  lemma ShrLinear(v: Words, k: nat, p: nat, y0: int, y1: int, y2: int, y3: int)
    requires k < 4 && p > 0
    requires y0 == Cut(v, k, p)
    requires y1 == if k < 3 then Cut(v, k + 1, p) else 0
    requires y2 == if k < 2 then Cut(v, k + 2, p) else 0
    requires y3 == if k < 1 then Cut(v, k + 3, p) else 0
    ensures (y0 + y1 * B + y2 * B2 + y3 * B3) * Place(k) + Below(v, k) + (v[k] % p) * Place(k) == Val(v)
  {
  }

  /** Word i of v with its low part moved out and the low part of the next word moved in. */
  function Cut(v: Words, i: nat, p: nat): int
    requires i < 4 && p > 0
  {
    v[i] - v[i] % p + (if i < 3 then (v[i + 1] % p) * B else 0)
  }

  /** The value of the words below word k. */
  function Below(v: Words, k: nat): (b: nat)
    requires k < 4
  {
    if k == 0 then 0
    else if k == 1 then v[0]
    else if k == 2 then v[0] + v[1] * B
    else v[0] + v[1] * B + v[2] * B2
  }

  lemma ShrRest(v: Words, k: nat, m: nat, p: nat, w: nat, q: nat)
    requires k < 4 && p > 0 && w == Pow2(32 * k)
    requires Val(v) == (w * p) * q + Below(v, k) + (v[k] % p) * w
    ensures w * p > 0 && Val(v) / (w * p) == q
  {
    hide Pow2, Val;
    Pow2Of32();
    Pow2Zero();
    var low := v[k] % p;
    ScaledGap(low, p, w);
    MulMonotone(w, 1, p);
    MulMonotone(w, 0, low);
    DivModUnique(Val(v), w * p, q, Below(v, k) + low * w);
  }

  lemma ShrWordTimes(v: Words, i: nat, m: nat)
    requires i < 4 && m < 32
    ensures ShrWord(v, i, m) * Pow2(m) == Cut(v, i, Pow2(m))
  {
    hide Pow2, Kept, Passed;
    var p, d := Pow2(m), Passed(v[i], 32 - m);
    PassedTimes(v[i], m);
    if i < 3 {
      KeptTimes(v[i + 1], m);
      MulDistRight(d, Kept(v[i + 1], 32 - m), p);
    }
  }

  lemma PassedTimes(x: Word, m: nat)
    requires m < 32
    ensures Passed(x, 32 - m) * Pow2(m) == x - x % Pow2(m)
  {
    hide Pow2;
  }

  lemma KeptTimes(x: Word, m: nat)
    requires m < 32
    ensures Kept(x, 32 - m) * Pow2(m) == (x % Pow2(m)) * B
  {
    hide Pow2, Kept;
    WordParts(m);
    KeptPassed(x, 32 - m);
    MulAssoc(x % Pow2(m), Pow2(32 - m), Pow2(m));
  }

  // ---- comparison, logarithm, division ----

  /** `operator<`: high double words first. */
  predicate Less(a: Words, b: Words)
    ensures Less(a, b) <==> Val(a) < Val(b)
  {
    High(a) < High(b) || (High(a) == High(b) && Low(a) < Low(b))
  }

  /** `flog2`: scans the words from the top; an all-zero number aborts. */
  method FLog2(v: Words) returns (log: nat)
    requires Val(v) > 0
    ensures log < 128 && Pow2(log) <= Val(v) < Pow2(log + 1)
  {
    hide Pow2, Log2;
    var i := 3;
    while v[i] == 0
      invariant 0 <= i < 4
      invariant Val(v) == v[i] * Place(i) + Below(v, i)
      decreases i
    {
      i := i - 1;
    }
    log := Log2(v[i]) + 32 * i;
    Pow2Of32();
    LogBelow(v[i], 32);
    TopWord(v, i, Log2(v[i]));
  }

  lemma TopWord(v: Words, i: nat, l: nat)
    requires i < 4 && Val(v) == v[i] * Place(i) + Below(v, i)
    requires Pow2(l) <= v[i] < Pow2(l + 1)
    ensures Pow2(l + 32 * i) <= Val(v) < Pow2(l + 32 * i + 1)
  {
    hide Pow2;
    PlacePow2(i);
    Pow2Add(l, 32 * i);
    Pow2Add(l + 1, 32 * i);
    MulMonotone(Place(i), Pow2(l), v[i]);
    MulMonotone(Place(i), (v[i] as int) + 1, Pow2(l + 1));
    assert Below(v, i) < Place(i);
  }

  /** The scaled divisor and its place in the quotient, kept in step while both are halved;
      nothing is promised about them once the dividend is below the divisor. */
  ghost predicate InStep(dividend: nat, divisor: nat, factor: nat, qfactor: nat, k: nat) {
    dividend < divisor || (factor == divisor * Pow2(k) && qfactor == Pow2(k))
  }

  lemma HalveInStep(dividend: nat, divisor: nat, factor: nat, qfactor: nat, k: nat) returns (k': nat)
    requires dividend < factor && InStep(dividend, divisor, factor, qfactor, k)
    ensures InStep(dividend, divisor, factor / 2, qfactor / 2, k')
  {
    hide Pow2;
    if k == 0 {
      Pow2Zero();
      k' := 0;
    } else {
      k' := k - 1;
      Pow2Double(k');
      MulAssoc(divisor, Pow2(k'), 2);
    }
  }

  lemma SubtractFactor(n: nat, dividend: nat, divisor: nat, quotient: nat, qfactor: nat, factor: nat)
    requires divisor > 0 && dividend + quotient * divisor == n
    requires factor == divisor * qfactor && factor <= dividend
    ensures dividend - factor + (quotient + qfactor) * divisor == n
    ensures quotient + qfactor <= n
  {
    MulDistRight(quotient, qfactor, divisor);
    MulMonotone(quotient + qfactor, 1, divisor);
  }

  /** `divmod`: underestimates by bit length, then walks the scaled divisor down.
      Division by zero is undefined in the source. */
  method DivMod(origDividend: Words, divisor: Words) returns (quotient: Words, dividend: Words)
    requires Val(divisor) > 0
    ensures Val(quotient) == Val(origDividend) / Val(divisor)
    ensures Val(dividend) == Val(origDividend) % Val(divisor)
  {
    hide Pow2, Val, InStep, Less, Log2;
    ghost var n, d := Val(origDividend), Val(divisor);
    if Less(origDividend, divisor) {
      ZeroOne();
      ModSmall(n, d);
      return [0, 0, 0, 0], origDividend;
    }
    dividend := origDividend;
    var log2Divisor := FLog2(divisor);
    var log2Dividend := FLog2(dividend);
    LogOrder(n, d, log2Dividend, log2Divisor);
    var logdiff := log2Dividend - log2Divisor;
    ZeroOne();
    if logdiff == 0 {
      quotient := [1, 0, 0, 0];
      dividend := Minus(dividend, divisor);
      ModSmall(n - d, B4);
      DivModUnique(n, d, 1, n - d);
      return;
    }
    logdiff := logdiff - 1;
    quotient := [0, 0, 0, 0];
    var qfactor := ShiftLeft([1, 0, 0, 0], logdiff);
    var factor := ShiftLeft(divisor, logdiff);
    ghost var k := logdiff;
    FirstFactor(n, d, logdiff);
    var more := true;
    while more
      invariant Val(dividend) + Val(quotient) * d == n
      invariant more == (Val(dividend) >= d)
      invariant InStep(Val(dividend), d, Val(factor), Val(qfactor), k)
      invariant more ==> Val(factor) <= Val(dividend)
      decreases Val(dividend), more
    {
      InStepFactor(Val(dividend), d, Val(factor), Val(qfactor), k);
      SubtractFactor(n, Val(dividend), d, Val(quotient), Val(qfactor), Val(factor));
      ModSmall(Val(dividend) - Val(factor), B4);
      ModSmall(Val(quotient) + Val(qfactor), B4);
      InStepAfter(Val(dividend), d, Val(factor), Val(qfactor), k);
      dividend := Minus(dividend, factor);
      quotient := Plus(quotient, qfactor);
      while Less(dividend, factor)
        invariant InStep(Val(dividend), d, Val(factor), Val(qfactor), k)
        decreases Val(factor)
      {
        k := HalveInStep(Val(dividend), d, Val(factor), Val(qfactor), k);
        Pow2One();
        factor := ShiftRight(factor, 1);
        qfactor := ShiftRight(qfactor, 1);
      }
      more := !Less(dividend, divisor);
    }
    DivModUnique(n, d, Val(quotient), Val(dividend));
  }

  lemma InStepFactor(dividend: nat, divisor: nat, factor: nat, qfactor: nat, k: nat)
    requires dividend >= divisor > 0 && InStep(dividend, divisor, factor, qfactor, k)
    ensures factor == divisor * qfactor && factor > 0
  {
    hide Pow2;
    MulMonotone(divisor, 1, Pow2(k));
  }

  lemma InStepAfter(dividend: nat, divisor: nat, factor: nat, qfactor: nat, k: nat)
    requires factor <= dividend && dividend >= divisor && InStep(dividend, divisor, factor, qfactor, k)
    ensures InStep(dividend - factor, divisor, factor, qfactor, k)
  {
  }

  lemma Pow2One()
    ensures Pow2(1) == 2
  {
  }

  lemma ZeroOne()
    ensures Val([0, 0, 0, 0]) == 0 && Val([1, 0, 0, 0]) == 1
  {
  }

  lemma LogOrder(n: nat, d: nat, ln: nat, ld: nat)
    requires 0 < d <= n && Pow2(ln) <= n < Pow2(ln + 1) && Pow2(ld) <= d < Pow2(ld + 1)
    ensures ld <= ln
    ensures ln == ld ==> n - d < d
    ensures ln > ld ==> d * Pow2(ln - ld - 1) <= n
  {
    hide Pow2;
    if ln < ld {
      Pow2Monotone(ln + 1, ld);
    } else if ln == ld {
      Pow2Double(ln);
    } else {
      Pow2Add(ld + 1, ln - ld - 1);
      MulMonotone(Pow2(ln - ld - 1), d, Pow2(ld + 1));
    }
  }

  lemma FirstFactor(n: nat, d: nat, k: nat)
    requires d > 0 && d * Pow2(k) <= n < B4
    ensures (1 * Pow2(k)) % B4 == Pow2(k) && (d * Pow2(k)) % B4 == d * Pow2(k)
    ensures InStep(n, d, d * Pow2(k), Pow2(k), k)
  {
    hide Pow2;
    MulMonotone(Pow2(k), 1, d);
    ModSmall(Pow2(k), B4);
    ModSmall(d * Pow2(k), B4);
  }
}
