/** What the words of the output function are: each bit of a word from the bits of the
    state and of one product, with the shifts and constants of every width written out. */
module PcgWords {
  import opened Arithmetic
  import opened Bitwise
  import opened PcgOutput

  /** Bit i, flipped where the bit s places above it is set. */
  function MixedBit(x: nat, i: nat, s: nat, bits: nat): int {
    if i + s < bits && BitAt(x, i + s) == 1 then 1 - BitAt(x, i) else BitAt(x, i)
  }

  ghost predicate Mixes(x: nat, y: nat, s: nat, bits: nat) {
    y < Pow2(bits) && forall i: nat | i < bits :: BitAt(y, i) == MixedBit(x, i, s, bits)
  }

  function Product(x: nat, mult: nat, bits: nat): nat {
    (x * mult) % Pow2(bits)
  }

  /** The top bits of the state, op of them, add to the first shift; the product with the multiplier
      is shifted by a fixed amount. */
  ghost predicate IsOutput(state: nat, word: nat, bits: nat, op: nat, mult: nat, final: nat)
    requires op <= bits
  {
    hide Pow2, Mixes;
    exists x: nat ::
      Mixes(state, x, op + Shr(state, bits - op), bits) && Mixes(Product(x, mult, bits), word, final, bits)
  }

  lemma XorshiftMixes(x: nat, s: nat, bits: nat)
    requires x < Pow2(bits)
    ensures Mixes(x, Xorshift(x, s), s, bits)
  {
    hide Pow2, Xor, Shr, BitAt;
    XorshiftBelow(x, s, bits);
    forall i: nat | i < bits
      ensures BitAt(Xorshift(x, s), i) == MixedBit(x, i, s, bits)
    {
      XorBits(x, Shr(x, s), i);
      ShrBits(x, s, i);
      BitRange(x, i);
      BitRange(x, i + s);
      if bits <= i + s {
        BitsAbove(x, bits, i + s);
      }
    }
  }

  lemma BitRange(x: nat, i: nat)
    ensures BitAt(x, i) == 0 || BitAt(x, i) == 1
  {
    hide Pow2;
  }

  /** No other word has these bits. */
  lemma MixesUnique(x: nat, y: nat, y': nat, s: nat, bits: nat)
    requires Mixes(x, y, s, bits) && Mixes(x, y', s, bits)
    ensures y == y'
  {
    hide Pow2, BitAt, MixedBit;
    forall i: nat | i < bits
      ensures BitAt(y, i) == BitAt(y', i)
    {
      assert BitAt(y, i) == MixedBit(x, i, s, bits);
    }
    SameBits(y, y', bits);
  }

  lemma TopBits(x: nat, bits: nat)
    requires Width(bits) && x < Pow2(bits)
    ensures OpBits(bits) <= bits && RandomShift(x, bits) == Shr(x, bits - OpBits(bits))
  {
    hide Pow2, And, OpBits;
    Positive(bits);
    var op := OpBits(bits);
    ShrBelow(x, bits - op, op);
    AndLowMask(Shr(x, bits - op), op);
    ModSmall(Shr(x, bits - op), Pow2(op));
  }

  lemma OutputBits(state: nat, word: nat, bits: nat)
    requires Width(bits) && state < Pow2(bits)
    ensures OpBits(bits) <= bits
    ensures word == Output(state, bits)
       <==> IsOutput(state, word, bits, OpBits(bits), McgMultiplier(bits), FinalShift(bits))
  {
    hide Pow2, Mixes, Xorshift, OpBits, RandomShift, FinalShift, McgMultiplier, Output, Product, Shr;
    var op, m, f := OpBits(bits), McgMultiplier(bits), FinalShift(bits);
    TopBits(state, bits);
    var s := op + Shr(state, bits - op);
    var x := Xorshift(state, s);
    XorshiftMixes(state, s, bits);
    var z := Product(x, m, bits);
    ProductBelow(x, m, bits);
    XorshiftMixes(z, f, bits);
    OutputSteps(state, bits, x);
    if IsOutput(state, word, bits, op, m, f) {
      var x': nat :| Mixes(state, x', s, bits) && Mixes(Product(x', m, bits), word, f, bits);
      MixesUnique(state, x, x', s, bits);
      MixesUnique(z, Output(state, bits), word, f, bits);
    }
  }

  lemma ProductBelow(x: nat, mult: nat, bits: nat)
    ensures Product(x, mult, bits) < Pow2(bits)
  {
    hide Pow2;
  }

  lemma OutputSteps(state: nat, bits: nat, x: nat)
    requires Width(bits) && x == Xorshift(state, OpBits(bits) + RandomShift(state, bits))
    ensures Output(state, bits) == Xorshift(Product(x, McgMultiplier(bits), bits), FinalShift(bits))
  {
    hide Pow2, Xorshift, OpBits, RandomShift, FinalShift, McgMultiplier;
  }

  /** The word of every state, for each width: the number of top bits that choose the first shift,
      the multiplier and the last shift. */
  lemma OutputIs(state: nat, word: nat, bits: nat)
    requires Width(bits) && state < Pow2(bits)
    ensures word == Output(state, bits) <==> match bits
      case 8 => IsOutput(state, word, 8, 2, 217, 6)
      case 16 => IsOutput(state, word, 16, 3, 62169, 11)
      case 32 => IsOutput(state, word, 32, 4, 277803737, 22)
      case 64 => IsOutput(state, word, 64, 5, 12605985483714917081, 43)
      case _ => IsOutput(state, word, 128, 6, 327738287884841127335028083622016905945, 86)
  {
    hide Output, IsOutput, Pow2;
    OutputBits(state, word, bits);
  }

  // ---- the word of the state with only its top bit set ----

  lemma XorApart(hi: nat, lo: nat, k: nat)
    requires lo < Pow2(k)
    ensures 0 <= hi * Pow2(k) && Xor(hi * Pow2(k), lo) == hi * Pow2(k) + lo
  {
    hide Pow2, Xor;
    var x := hi * Pow2(k);
    MulMonotone(Pow2(k), 0, hi);
    XorHigh(x, lo, k);
    XorMod(x, lo, k);
    DivModUnique(x, Pow2(k), hi, 0);
    XorZero(lo);
    ModSmall(lo, Pow2(k));
  }

  lemma MixApart(x: nat, hi: nat, k: nat, s: nat, lo: nat)
    requires x == hi * Pow2(k) && lo < Pow2(k) && Shr(x, s) == lo
    ensures Xorshift(x, s) == x + lo
  {
    hide Pow2, Xor, Shr;
    XorApart(hi, lo, k);
  }

  lemma ShrPower(n: nat, s: nat)
    requires s <= n
    ensures Shr(Pow2(n), s) == Pow2(n - s)
  {
    hide Pow2;
    Pow2Add(s, n - s);
    DivModUnique(Pow2(n), Pow2(s), Pow2(n - s), 0);
  }

  /** The product of the mixed word is hi * 2^k, and t is that number shifted. */
  lemma TopWord(bits: nat, k: nat, hi: nat, t: nat)
    requires Width(bits) && k + OpBits(bits) + Pow2(OpBits(bits) - 1) == bits - 1
    requires Product(Pow2(bits - 1) + Pow2(k), McgMultiplier(bits), bits) == hi * Pow2(k)
    requires Shr(Product(Pow2(bits - 1) + Pow2(k), McgMultiplier(bits), bits), FinalShift(bits)) == t < Pow2(k)
    ensures Output(Pow2(bits - 1), bits) == hi * Pow2(k) + t
  {
    hide Pow2, Xorshift, OpBits, RandomShift, FinalShift, McgMultiplier, Output, Product, Shr;
    Positive(bits);
    var top, op := Pow2(bits - 1), OpBits(bits);
    Pow2Double(bits - 1);
    TopBits(top, bits);
    ShrPower(bits - 1, bits - op);
    var s := op + Pow2(op - 1);
    ShrPower(bits - 1, s);
    BelowTop(k, bits - 1);
    MixApart(top, 1, bits - 1, s, Pow2(k));
    OutputSteps(top, bits, top + Pow2(k));
    MixApart(Product(top + Pow2(k), McgMultiplier(bits), bits), hi, k, FinalShift(bits), t);
  }

  lemma BelowTop(k: nat, n: nat)
    requires k < n
    ensures Pow2(k) < Pow2(n)
  {
    hide Pow2;
    Pow2Double(k);
    Pow2Monotone(k + 1, n);
  }

  lemma Powers()
    ensures Pow2(1) == 2 && Pow2(2) == 4 && Pow2(3) == 8 && Pow2(4) == 0x10 && Pow2(5) == 0x20 && Pow2(6) == 0x40
    ensures Pow2(7) == 0x80 && Pow2(8) == 0x100 && Pow2(11) == 0x800 && Pow2(15) == 0x8000 && Pow2(19) == 0x8_0000
    ensures Pow2(22) == 0x40_0000 && Pow2(31) == 0x8000_0000 && Pow2(42) == 0x400_0000_0000
    ensures Pow2(43) == 0x800_0000_0000 && Pow2(63) == 0x8000_0000_0000_0000
    ensures Pow2(86) == 0x40_0000_0000_0000_0000_0000 && Pow2(89) == 0x200_0000_0000_0000_0000_0000
    ensures Pow2(127) == 0x8000_0000_0000_0000_0000_0000_0000_0000
  {
    hide Pow2;
    Pow2Zero();
    Pow2Double(0);
    Pow2Double(1);
    Pow2Double(2);
    Pow2Double(3);
    Pow2Double(4);
    Pow2Double(5);
    Pow2Double(6);
    Pow2Double(7);
    Pow2Add(3, 8);
    Pow2Add(4, 11);
    Pow2Add(8, 11);
    Pow2Add(11, 11);
    Pow2Add(15, 16);
    Pow2Add(1, 15);
    Pow2Add(11, 31);
    Pow2Add(1, 42);
    Pow2Add(31, 32);
    Pow2Add(1, 31);
    Pow2Add(43, 43);
    Pow2Add(3, 86);
    Pow2Add(63, 64);
    Pow2Add(1, 63);
  }

  /** The word of the state with only its top bit set, at each width. */
  lemma TopBitWords()
    ensures Output(0x80, 8) == 0x49
    ensures Output(0x8000, 16) == 0x590B
    ensures Output(0x8000_0000, 32) == 0x16C8_005B
    ensures Output(0x8000_0000_0000_0000, 64) == 0xBBCB_6400_0017_796C
    ensures Output(0x8000_0000_0000_0000_0000_0000_0000_0000, 128) == 0x8421_1DE5_B200_0000_0000_0210_8477_96C8
  {
    hide Pow2, Output;
    Powers();
    WidthModulus(8);
    WidthModulus(16);
    WidthModulus(32);
    WidthModulus(64);
    WidthModulus(128);
    TopWord(8, 3, 0x9, 0x1);
    TopWord(16, 8, 0x59, 0xB);
    TopWord(32, 19, 0x2D9, 0x5B);
    TopWord(64, 42, 0x2E_F2D9, 0x17_796C);
    TopWord(128, 89, 0x42_108E_F2D9, 0x210_8477_96C8);
  }
}
