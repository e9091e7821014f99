/** The RXS M XS output function of the PCG engines and its inverse, at any
    state width, with `unxorshift` as its core. Result and state have the same
    width here, which is what makes the function a permutation. */
module PcgOutput {
  import opened Arithmetic
  import opened Bitwise

  function Xorshift(x: nat, s: nat): nat {
    Xor(x, Shr(x, s))
  }

  // ---- shifts, remainders and exclusive or ----

  lemma ShrMod(x: nat, a: nat, b: nat)
    ensures Shr(x % Pow2(a + b), a) == Shr(x, a) % Pow2(b)
    ensures (x % Pow2(a + b)) % Pow2(a) == x % Pow2(a)
  {
    hide Pow2;
    var p, q := Pow2(a), Pow2(b);
    Pow2Add(a, b);
    DivDiv(x, p, q);
    DivModUnique(x % (p * q), p, (x / p) % q, x % p);
  }

  lemma ShrShr(x: nat, a: nat, b: nat)
    ensures Shr(Shr(x, a), b) == Shr(x, a + b)
  {
    Pow2Add(a, b);
    DivDiv(x, Pow2(a), Pow2(b));
  }

  lemma ShrLess(x: nat, s: nat)
    ensures Shr(x, s) <= x && (0 < s && 0 < x ==> Shr(x, s) < x)
  {
    hide Pow2;
    DivNonneg(x, Pow2(s));
    if 0 < s && 0 < x {
      Pow2Double(s - 1);
      DivLess(x, Pow2(s));
    }
  }

  /** A number below 2^k does not reach the bits from k upwards. */
  lemma XorHigh(x: nat, z: nat, k: nat)
    requires z < Pow2(k)
    ensures Shr(Xor(x, z), k) == Shr(x, k)
  {
    XorShr(x, z, k);
    ModSmall(z, Pow2(k));
    XorZero(Shr(x, k));
  }

  /** Numbers with the same high part and the same low part are equal. */
  lemma SameParts(x: nat, y: nat, k: nat)
    requires Shr(x, k) == Shr(y, k) && x % Pow2(k) == y % Pow2(k)
    ensures x == y
  {
    hide Pow2;
    var p := Pow2(k);
    assert x == p * (x / p) + x % p && y == p * (y / p) + y % p;
  }

  // ---- unxorshift ----

  /** `unxorshift` on a type of w bits. */
  function Unxorshift(x: nat, bits: nat, shift: nat, w: nat): nat
    requires 0 < shift && bits <= w
    decreases bits
  {
    if 2 * shift >= bits then Xorshift(x, shift)
    else
      Pow2Monotone(bits - 2 * shift, w);
      var lowmask1 := Pow2(bits - 2 * shift) - 1;
      var highmask1 := Not(lowmask1, w);
      var bottom1 := And(x, lowmask1);
      var top1 := And(Xorshift(x, shift), highmask1);
      var lowmask2 := Pow2(bits - shift) - 1;
      var bottom2 := Unxorshift(And(Or(top1, bottom1), lowmask2), bits - shift, shift, w);
      Or(top1, And(bottom2, lowmask1))
  }

  lemma XorshiftTwice(x: nat, s: nat)
    ensures Xorshift(Xorshift(x, s), s) == Xor(x, Shr(x, 2 * s))
  {
    var a, b := Shr(x, s), Shr(x, 2 * s);
    XorShr(x, a, s);
    ShrShr(x, s, s);
    XorAssociates(x, a, Xor(a, b));
    XorAssociates(a, a, b);
    XorSelf(a);
    XorZero(b);
  }

  lemma XorshiftBelow(x: nat, s: nat, bits: nat)
    requires x < Pow2(bits)
    ensures Xorshift(x, s) < Pow2(bits)
  {
    ShrLess(x, s);
    XorBelow(x, Shr(x, s), bits);
  }

  /** The word handed to the recursive call is the xorshift of the low part of x. */
  lemma LowPart(x: nat, x1: nat, k: nat, s: nat)
    requires x1 == Shr(x, k) * Pow2(k) + Xorshift(x, s) % Pow2(k)
    ensures x1 % Pow2(k + s) == Xorshift(x % Pow2(k + s), s)
  {
    hide Pow2, Xor;
    var h, low := Pow2(k), x % Pow2(k + s);
    ShrMod(x, k, s);
    ShrMod(x, s, k);
    ShrMod(x1, k, s);
    DivModUnique(x1, h, Shr(x, k), Xorshift(x, s) % h);
    var z := Shr(low, s);
    assert z == Shr(x, s) % h;
    XorHigh(low, z, k);
    XorMod(x, Shr(x, s), k);
    XorMod(low, z, k);
    ModSmall(z, h);
    SameParts(x1 % Pow2(k + s), Xor(low, z), k);
  }

  /** Clearing the low bits of the twice shifted word leaves the high part of x. */
  lemma HighPart(x: nat, k: nat, s: nat, w: nat)
    requires x < Pow2(k + 2 * s) && k + 2 * s <= w
    ensures Pow2(k) <= Pow2(w)
    ensures And(Xorshift(Xorshift(x, s), s), Not(Pow2(k) - 1, w)) == Shr(x, k) * Pow2(k)
  {
    hide Pow2, Xor, And;
    var t, h := Xorshift(Xorshift(x, s), s), Pow2(k);
    Pow2Monotone(k + 2 * s, w);
    XorshiftBelow(x, s, w);
    XorshiftBelow(Xorshift(x, s), s, w);
    AndHighMask(t, k, w);
    XorshiftTwice(x, s);
    ShrBelow(x, 2 * s, k);
    XorHigh(x, Shr(x, 2 * s), k);
    assert t == h * (t / h) + t % h;
  }

  /** `unxorshift` undoes a right xorshift, at every width and for every positive shift. */
  lemma {:induction false} UnxorshiftInverts(x: nat, bits: nat, s: nat, w: nat)
    requires 0 < s && bits <= w && x < Pow2(bits)
    ensures Unxorshift(Xorshift(x, s), bits, s, w) == x
    decreases bits
  {
    hide Pow2, Xorshift, And, Or, Shr;
    var y := Xorshift(x, s);
    if 2 * s >= bits {
      XorshiftUndoesItself(x, s, bits);
    } else {
      var k := bits - 2 * s;
      var h, mask := Pow2(k), Pow2(k) - 1;
      HighPart(x, k, s, w);
      var top := And(Xorshift(y, s), Not(mask, w));
      AndLowMask(y, k);
      OrDisjoint(Shr(x, k), y % h, k);
      var x1 := Or(top, And(y, mask));
      AndLowMask(x1, k + s);
      LowPart(x, x1, k, s);
      var low := x % Pow2(k + s);
      UnxorshiftInverts(low, k + s, s, w);
      assert Unxorshift(y, bits, s, w) == Or(top, And(low, mask));
      AndLowMask(low, k);
      ModPow2(x, k, k + s);
      OrDisjoint(Shr(x, k), x % h, k);
      Reassemble(x, k);
    }
  }

  lemma Reassemble(x: nat, k: nat)
    ensures x == Shr(x, k) * Pow2(k) + x % Pow2(k)
  {
    var h := Pow2(k);
    assert x == h * (x / h) + x % h;
  }

  lemma XorshiftUndoesItself(x: nat, s: nat, bits: nat)
    requires x < Pow2(bits) && 2 * s >= bits
    ensures Xorshift(Xorshift(x, s), s) == x
  {
    XorshiftTwice(x, s);
    Pow2Monotone(bits, 2 * s);
    ModSmall(x, Pow2(2 * s));
    XorZero(x);
  }

  /** A preimage under xorshift, built from the top down. */
  function Preimage(y: nat, s: nat): nat
    requires 0 < s
  {
    if y == 0 then 0 else ShrLess(y, s); Xor(y, Preimage(Shr(y, s), s))
  }

  lemma {:induction false} PreimageWorks(y: nat, s: nat, bits: nat)
    requires 0 < s && y < Pow2(bits)
    ensures Preimage(y, s) < Pow2(bits) && Xorshift(Preimage(y, s), s) == y
  {
    if y == 0 {
      XorZero(0);
      ModSmall(0, Pow2(s));
    } else {
      ShrLess(y, s);
      var z := Shr(y, s);
      var p := Preimage(z, s);
      PreimageWorks(z, s, bits);
      XorBelow(y, p, bits);
      XorShr(y, p, s);
      XorCommutes(z, Shr(p, s));
      assert Xor(p, Shr(p, s)) == z;
      XorCancel(p, Shr(p, s));
      XorCancel(y, p);
    }
  }

  /** ... and every word is a xorshift, so the two are mutual inverses. */
  lemma XorshiftInverts(y: nat, bits: nat, s: nat, w: nat)
    requires 0 < s && bits <= w && y < Pow2(bits)
    ensures Unxorshift(y, bits, s, w) < Pow2(bits)
    ensures Xorshift(Unxorshift(y, bits, s, w), s) == y
  {
    PreimageWorks(y, s, bits);
    UnxorshiftInverts(Preimage(y, s), bits, s, w);
  }

  // ---- the RXS M XS output permutation ----

  /** The state types the engines are instantiated with. */
  predicate Width(bits: nat) {
    bits == 8 || bits == 16 || bits == 32 || bits == 64 || bits == 128
  }

  function McgMultiplier(bits: nat): nat
    requires Width(bits)
  {
    match bits
    case 8 => 217
    case 16 => 62169
    case 32 => 277803737
    case 64 => 12605985483714917081
    case _ => 17766728186571221404 * 0x1_0000_0000_0000_0000 + 12605985483714917081
  }

  function McgUnmultiplier(bits: nat): nat
    requires Width(bits)
  {
    match bits
    case 8 => 105
    case 16 => 28009
    case 32 => 2897767785
    case 64 => 15009553638781119849
    case _ => 14422606686972528997 * 0x1_0000_0000_0000_0000 + 15009553638781119849
  }

  lemma WidthModulus(bits: nat)
    requires Width(bits)
    ensures Pow2(bits) == match bits
      case 8 => 0x100
      case 16 => 0x1_0000
      case 32 => 0x1_0000_0000
      case 64 => 0x1_0000_0000_0000_0000
      case _ => 0x1_0000_0000_0000_0000_0000_0000_0000_0000
  {
    hide Pow2;
    Pow2Zero();
    Pow2Double(0);
    Pow2Add(1, 1);
    Pow2Add(2, 2);
    Pow2Add(4, 4);
    Pow2Add(8, 8);
    Pow2Add(16, 16);
    Pow2Add(32, 32);
    Pow2Add(64, 64);
  }

  /** The unmultiplier is the inverse of the multiplier modulo 2^bits. */
  lemma MultipliersInverse(bits: nat)
    requires Width(bits)
    ensures (McgMultiplier(bits) * McgUnmultiplier(bits)) % Pow2(bits) == 1
  {
    hide Pow2;
    WidthModulus(bits);
  }

  function OpBits(bits: nat): nat {
    if bits >= 128 then 6 else if bits >= 64 then 5 else if bits >= 32 then 4
    else if bits >= 16 then 3 else 2
  }

  /** The data-dependent shift: the top bits of the word. */
  function RandomShift(x: nat, bits: nat): nat
    requires OpBits(bits) <= bits
  {
    And(Shr(x, bits - OpBits(bits)), Pow2(OpBits(bits)) - 1)
  }

  function FinalShift(bits: nat): nat {
    (2 * bits + 2) / 3
  }

  function Output(internal: nat, bits: nat): nat
    requires Width(bits)
  {
    var x := Xorshift(internal, OpBits(bits) + RandomShift(internal, bits));
    var z := (x * McgMultiplier(bits)) % Pow2(bits);
    Xorshift(z, FinalShift(bits))
  }

  function Unoutput(word: nat, bits: nat): nat
    requires Width(bits)
  {
    var z := Unxorshift(word, bits, FinalShift(bits), bits);
    var x := (z * McgUnmultiplier(bits)) % Pow2(bits);
    Unxorshift(x, bits, OpBits(bits) + RandomShift(x, bits), bits)
  }

  /** Multiplying by the inverse constants undoes the multiplication step. */
  lemma Unmultiply(x: nat, a: nat, b: nat, m: nat)
    requires x < m && (a * b) % m == 1
    ensures (((x * a) % m) * b) % m == x
  {
    ModMul(x * a, b, m);
    MulAssoc(x, a, b);
    ModMul(a * b, x, m);
    ModSmall(x, m);
  }

  /** The first xorshift leaves the bits that chose its shift unchanged. */
  lemma ShiftSurvives(x: nat, r: nat, bits: nat)
    requires OpBits(bits) <= bits && x < Pow2(bits)
    ensures RandomShift(Xorshift(x, OpBits(bits) + r), bits) == RandomShift(x, bits)
  {
    hide Pow2, Xor, And, OpBits;
    var op := OpBits(bits);
    ShrBelow(x, op, bits - op);
    ShrShr(x, op, r);
    ShrLess(Shr(x, op), r);
    XorHigh(x, Shr(x, op + r), bits - op);
  }

  lemma UnoutputInverts(state: nat, bits: nat)
    requires Width(bits) && state < Pow2(bits)
    ensures Output(state, bits) < Pow2(bits)
    ensures Unoutput(Output(state, bits), bits) == state
  {
    hide Pow2, Xor, Unxorshift, OpBits, RandomShift, FinalShift, McgMultiplier, McgUnmultiplier;
    Positive(bits);
    var m, a, b := Pow2(bits), McgMultiplier(bits), McgUnmultiplier(bits);
    var s := OpBits(bits) + RandomShift(state, bits);
    var x := Xorshift(state, s);
    XorshiftBelow(state, s, bits);
    var z := (x * a) % m;
    XorshiftBelow(z, FinalShift(bits), bits);
    UnxorshiftInverts(z, bits, FinalShift(bits), bits);
    MultipliersInverse(bits);
    Unmultiply(x, a, b, m);
    ShiftSurvives(state, RandomShift(state, bits), bits);
    UnxorshiftInverts(state, bits, s, bits);
  }

  lemma OutputInverts(word: nat, bits: nat)
    requires Width(bits) && word < Pow2(bits)
    ensures Unoutput(word, bits) < Pow2(bits)
    ensures Output(Unoutput(word, bits), bits) == word
  {
    hide Pow2, Xor, Unxorshift, OpBits, RandomShift, FinalShift, McgMultiplier, McgUnmultiplier;
    Positive(bits);
    var m, a, b := Pow2(bits), McgMultiplier(bits), McgUnmultiplier(bits);
    var z := Unxorshift(word, bits, FinalShift(bits), bits);
    XorshiftInverts(word, bits, FinalShift(bits), bits);
    var x := (z * b) % m;
    MultipliersInverse(bits);
    Unmultiply(z, b, a, m);
    var s := OpBits(bits) + RandomShift(x, bits);
    XorshiftInverts(x, bits, s, bits);
    ShiftSurvives(Unxorshift(x, bits, s, bits), RandomShift(x, bits), bits);
  }

  lemma Positive(bits: nat)
    requires Width(bits)
    ensures 0 < OpBits(bits) <= bits && 0 < FinalShift(bits)
  {
  }
}
