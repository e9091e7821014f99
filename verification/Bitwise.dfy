/** Bitwise operators on naturals of any width, defined bit by bit, with the
    algebra and the mask and shift identities used by the generators, the wide
    integers and the hash. */
module Bitwise {
  import opened Arithmetic

  function Xor(x: nat, y: nat): (z: nat)
    decreases x + y
  {
    if x == 0 && y == 0 then 0
    else (if x % 2 != y % 2 then 1 else 0) + 2 * Xor(x / 2, y / 2)
  }

  function And(x: nat, y: nat): (z: nat)
    decreases x + y
  {
    if x == 0 && y == 0 then 0
    else (if x % 2 == 1 && y % 2 == 1 then 1 else 0) + 2 * And(x / 2, y / 2)
  }

  function Or(x: nat, y: nat): (z: nat)
    decreases x + y
  {
    if x == 0 && y == 0 then 0
    else (if x % 2 == 1 || y % 2 == 1 then 1 else 0) + 2 * Or(x / 2, y / 2)
  }

  /** Complement within w bits. */
  function Not(x: nat, w: nat): (z: nat)
    requires x < Pow2(w)
  {
    Pow2(w) - 1 - x
  }

  function Shr(x: nat, s: nat): (z: nat) {
    DivNonneg(x, Pow2(s));
    x / Pow2(s)
  }

  function Shl(x: nat, s: nat, w: nat): (z: nat) {
    (x * Pow2(s)) % Pow2(w)
  }

  // ---- the operators, bit by bit ----

  /** Bit i of a number. */
  function BitAt(x: nat, i: nat): nat {
    (x / Pow2(i)) % 2
  }

  lemma BitZero(x: nat)
    ensures BitAt(x, 0) == x % 2
  {
    Pow2Zero();
  }

  lemma BitNext(x: nat, i: nat)
    ensures BitAt(x, i + 1) == BitAt(x / 2, i)
  {
    hide Pow2;
    Pow2Double(i);
    DivDiv(x, 2, Pow2(i));
  }

  lemma {:induction false} XorBits(x: nat, y: nat, i: nat)
    ensures BitAt(Xor(x, y), i) == if BitAt(x, i) == BitAt(y, i) then 0 else 1
    decreases i
  {
    hide Xor, BitAt;
    XorHalves(x, y);
    if i == 0 {
      BitZero(x);
      BitZero(y);
      BitZero(Xor(x, y));
    } else {
      BitNext(x, i - 1);
      BitNext(y, i - 1);
      BitNext(Xor(x, y), i - 1);
      XorBits(x / 2, y / 2, i - 1);
    }
  }

  lemma {:induction false} AndBits(x: nat, y: nat, i: nat)
    ensures BitAt(And(x, y), i) == if BitAt(x, i) == 1 && BitAt(y, i) == 1 then 1 else 0
    decreases i
  {
    hide And, BitAt;
    AndHalves(x, y);
    if i == 0 {
      BitZero(x);
      BitZero(y);
      BitZero(And(x, y));
    } else {
      BitNext(x, i - 1);
      BitNext(y, i - 1);
      BitNext(And(x, y), i - 1);
      AndBits(x / 2, y / 2, i - 1);
    }
  }

  lemma {:induction false} OrBits(x: nat, y: nat, i: nat)
    ensures BitAt(Or(x, y), i) == if BitAt(x, i) == 1 || BitAt(y, i) == 1 then 1 else 0
    decreases i
  {
    hide Or, BitAt;
    OrHalves(x, y);
    if i == 0 {
      BitZero(x);
      BitZero(y);
      BitZero(Or(x, y));
    } else {
      BitNext(x, i - 1);
      BitNext(y, i - 1);
      BitNext(Or(x, y), i - 1);
      OrBits(x / 2, y / 2, i - 1);
    }
  }

  lemma OrHalves(x: nat, y: nat)
    ensures Or(x, y) / 2 == Or(x / 2, y / 2)
    ensures Or(x, y) % 2 == if x % 2 == 1 || y % 2 == 1 then 1 else 0
  {
  }

  /** Shifting right moves every bit down. */
  lemma ShrBits(x: nat, s: nat, i: nat)
    ensures BitAt(Shr(x, s), i) == BitAt(x, i + s)
  {
    hide Pow2;
    Pow2Add(s, i);
    DivDiv(x, Pow2(s), Pow2(i));
  }

  /** Numbers with the same bits are equal. */
  lemma {:induction false} SameBits(x: nat, y: nat, n: nat)
    requires x < Pow2(n) && y < Pow2(n) && forall i: nat | i < n :: BitAt(x, i) == BitAt(y, i)
    ensures x == y
  {
    hide Pow2, BitAt;
    if n == 0 {
      Pow2Zero();
    } else {
      Pow2Double(n - 1);
      forall i: nat | i < n - 1
        ensures BitAt(x / 2, i) == BitAt(y / 2, i)
      {
        BitNext(x, i);
        BitNext(y, i);
      }
      SameBits(x / 2, y / 2, n - 1);
      BitZero(x);
      BitZero(y);
    }
  }

  /** Bits from the length on are clear. */
  lemma BitsAbove(x: nat, n: nat, i: nat)
    requires x < Pow2(n) && n <= i
    ensures BitAt(x, i) == 0
  {
    hide Pow2;
    Pow2Monotone(n, i);
    ModSmall(x, Pow2(i));
  }

  // ---- the algebra of exclusive or ----

  lemma XorZero(x: nat)
    ensures Xor(x, 0) == x && Xor(0, x) == x
  {
    if x > 0 {
      XorZero(x / 2);
    }
  }

  lemma XorSelf(x: nat)
    ensures Xor(x, x) == 0
  {
    if x > 0 {
      XorSelf(x / 2);
    }
  }

  lemma XorCommutes(x: nat, y: nat)
    ensures Xor(x, y) == Xor(y, x)
    decreases x + y
  {
    if x > 0 || y > 0 {
      XorCommutes(x / 2, y / 2);
    }
  }

  lemma {:induction false} XorHalves(x: nat, y: nat)
    ensures Xor(x, y) / 2 == Xor(x / 2, y / 2)
    ensures Xor(x, y) % 2 == if x % 2 != y % 2 then 1 else 0
  {
  }

  lemma {:induction false} XorParity(x: nat, y: nat, z: nat)
    ensures Xor(Xor(x, y), z) % 2 == Xor(x, Xor(y, z)) % 2
  {
    XorHalves(Xor(x, y), z);
    XorHalves(x, Xor(y, z));
    XorHalves(x, y);
    XorHalves(y, z);
  }

  lemma {:induction false} XorAssociates(x: nat, y: nat, z: nat)
    ensures Xor(Xor(x, y), z) == Xor(x, Xor(y, z))
    decreases x + y + z
  {
    if x > 0 || y > 0 || z > 0 {
      var l, r := Xor(Xor(x, y), z), Xor(x, Xor(y, z));
      assert l / 2 == r / 2 by {
        XorAssociates(x / 2, y / 2, z / 2);
        XorHalves(x, y);
        XorHalves(y, z);
        XorHalves(Xor(x, y), z);
        XorHalves(x, Xor(y, z));
      }
      assert l % 2 == r % 2 by {
        XorParity(x, y, z);
      }
    }
  }

  /** Applying the same exclusive or twice gives back the original. */
  lemma XorCancel(x: nat, y: nat)
    ensures Xor(Xor(x, y), y) == x
  {
    XorAssociates(x, y, y);
    XorSelf(y);
    XorZero(x);
  }

  lemma {:induction false} XorShr(x: nat, y: nat, s: nat)
    ensures Shr(Xor(x, y), s) == Xor(Shr(x, s), Shr(y, s))
    decreases s
  {
    hide Pow2, Xor;
    if s == 0 {
      Pow2Zero();
    } else {
      Pow2Double(s - 1);
      XorHalves(x, y);
      XorShr(x / 2, y / 2, s - 1);
      DivDiv(x, 2, Pow2(s - 1));
      DivDiv(y, 2, Pow2(s - 1));
      DivDiv(Xor(x, y), 2, Pow2(s - 1));
    }
  }

  lemma {:induction false} ModHalves(x: nat, k: nat)
    requires k > 0
    ensures (x % Pow2(k)) / 2 == (x / 2) % Pow2(k - 1)
    ensures (x % Pow2(k)) % 2 == x % 2
  {
    DivDiv(x, 2, Pow2(k - 1));
  }

  lemma {:induction false} XorMod(x: nat, y: nat, k: nat)
    ensures Xor(x, y) % Pow2(k) == Xor(x % Pow2(k), y % Pow2(k))
    decreases k
  {
    if k > 0 {
      var l, a, b := Xor(x, y) % Pow2(k), x % Pow2(k), y % Pow2(k);
      ModHalves(x, k);
      ModHalves(y, k);
      ModHalves(Xor(x, y), k);
      XorHalves(x, y);
      XorHalves(a, b);
      XorMod(x / 2, y / 2, k - 1);
      assert l / 2 == Xor(a, b) / 2;
      assert l % 2 == Xor(a, b) % 2;
    }
  }

  lemma XorBelow(x: nat, y: nat, k: nat)
    requires x < Pow2(k) && y < Pow2(k)
    ensures Xor(x, y) < Pow2(k)
  {
    XorMod(x, y, k);
    ModSmall(x, Pow2(k));
    ModSmall(y, Pow2(k));
  }

  /** Numbers whose bits occupy disjoint ranges combine by addition. */
  lemma {:induction false} OrDisjoint(hi: nat, lo: nat, k: nat)
    requires lo < Pow2(k)
    ensures Or(hi * Pow2(k), lo) == hi * Pow2(k) + lo
    decreases k
  {
    if k == 0 {
      OrZero(hi);
      assert hi * Pow2(0) == hi;
    } else {
      var x := hi * Pow2(k);
      assert x == 2 * (hi * Pow2(k - 1));
      assert x / 2 == hi * Pow2(k - 1) && x % 2 == 0;
      OrDisjoint(hi, lo / 2, k - 1);
    }
  }

  lemma OrZero(x: nat)
    ensures Or(x, 0) == x && Or(0, x) == x
  {
    if x > 0 {
      OrZero(x / 2);
    }
  }

  lemma OrCommutes(x: nat, y: nat)
    ensures Or(x, y) == Or(y, x)
    decreases x + y
  {
    if x > 0 || y > 0 {
      OrCommutes(x / 2, y / 2);
    }
  }

  lemma AndZero(x: nat)
    ensures And(x, 0) == 0 && And(0, x) == 0
  {
    if x > 0 {
      AndZero(x / 2);
    }
  }

  lemma {:induction false} AndHalves(x: nat, y: nat)
    ensures And(x, y) / 2 == And(x / 2, y / 2)
    ensures And(x, y) % 2 == if x % 2 == 1 && y % 2 == 1 then 1 else 0
  {
  }

  /** Masking with 2^k - 1 keeps the low k bits. */
  lemma {:induction false} AndLowMask(x: nat, k: nat)
    ensures And(x, Pow2(k) - 1) == x % Pow2(k)
    decreases k
  {
    hide Pow2, And;
    if k == 0 {
      Pow2Zero();
      AndZero(x);
    } else {
      var h := Pow2(k - 1);
      Pow2Double(k - 1);
      AndLowMask(x / 2, k - 1);
      assert (2 * h - 1) / 2 == h - 1 && (2 * h - 1) % 2 == 1;
      AndHalves(x, 2 * h - 1);
      DivDiv(x, 2, h);
    }
  }

  lemma {:induction false} AndHighBits(x: nat, k: nat, w: nat, h: nat, top: nat)
    requires k <= w && h == Pow2(k) && top == Pow2(w) && h <= top && x < top
    ensures And(x, top - h) == x - x % h
    decreases w
  {
    hide Pow2, And;
    if k == 0 {
      Pow2Zero();
      AndLowMask(x, w);
      ModSmall(x, top);
      DivModUnique(x, 1, x, 0);
    } else {
      Pow2Double(k - 1);
      Pow2Double(w - 1);
      Pow2Monotone(k - 1, w - 1);
      AndHighBits(x / 2, k - 1, w - 1, Pow2(k - 1), Pow2(w - 1));
      AndHighStep(x, Pow2(k - 1), Pow2(w - 1), h, top);
    }
  }

  /** Masking with the complement of 2^k - 1 clears the low k bits. */
  lemma AndHighMask(x: nat, k: nat, w: nat)
    requires k <= w && x < Pow2(w)
    ensures Pow2(k) <= Pow2(w)
    ensures And(x, Not(Pow2(k) - 1, w)) == x - x % Pow2(k)
  {
    hide Pow2, And;
    Pow2Monotone(k, w);
    AndHighBits(x, k, w, Pow2(k), Pow2(w));
  }

  lemma AndHighStep(x: nat, h: nat, top: nat, h2: nat, top2: nat)
    requires 0 < h <= top && h2 == 2 * h && top2 == 2 * top && And(x / 2, top - h) == x / 2 - (x / 2) % h
    ensures And(x, top2 - h2) == x - x % h2
  {
    hide And;
    var m: nat := top2 - h2;
    DivModUnique(m, 2, top - h, 0);
    AndHalves(x, m);
    DivDiv(x, 2, h);
  }

  /** Masking with one bit isolates that bit. */
  lemma {:induction false} AndBit(x: nat, k: nat)
    ensures And(x, Pow2(k)) == (x / Pow2(k)) % 2 * Pow2(k)
    decreases k
  {
    hide Pow2, And;
    AndHalves(x, Pow2(k));
    if k == 0 {
      Pow2Zero();
      AndZero(x / 2);
    } else {
      var h := Pow2(k - 1);
      Pow2Double(k - 1);
      AndBit(x / 2, k - 1);
      DivDiv(x, 2, h);
      MulAssoc(2, (x / 2 / h) % 2, h);
    }
  }

  lemma ShrBelow(x: nat, a: nat, b: nat)
    requires x < Pow2(a + b)
    ensures Shr(x, a) < Pow2(b)
  {
    Pow2Add(a, b);
    DivBound(x, Pow2(a), Pow2(b));
  }
}
