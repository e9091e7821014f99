/** The inside-out generator that advances the words of an extended table: the
    state is recovered from the stored output word, moved, and output again.
    Table slot i uses the increment of the base stream plus 2 * i. */
module InsideOut {
  import opened Arithmetic
  import opened Bitwise
  import opened Congruential
  import opened PcgOutput

  /** The generator of slot i. */
  function Slot(g: Lcg, i: nat): Lcg
  {
    Lcg(g.bits, g.mult, (g.inc + 2 * i) % g.Modulus(), g.mcg)
  }

  predicate Usable(g: Lcg) {
    g.Valid() && Width(g.bits) && !g.mcg
  }

  lemma SlotValid(g: Lcg, i: nat)
    requires Usable(g)
    ensures Slot(g, i).Valid()
  {
    hide Pow2;
    Pow2Double(g.bits - 1);
    StaysOdd(g.inc, i, Pow2(g.bits - 1));
  }

  lemma StaysOdd(inc: nat, i: nat, h: nat)
    requires h > 0 && inc % 2 == 1
    ensures (inc + 2 * i) % (2 * h) < 2 * h && ((inc + 2 * i) % (2 * h)) % 2 == 1
  {
    ModMod(inc + 2 * i, 2, h);
  }

  /** The first 2^(bits - 1) slots run on different streams, so on all of them. */
  lemma SlotsDiffer(g: Lcg, i: nat, j: nat)
    requires Usable(g) && i < j < Pow2(g.bits - 1)
    ensures Slot(g, i).inc != Slot(g, j).inc
  {
    hide Pow2;
    Pow2Double(g.bits - 1);
    CloseNumbers(g.inc + 2 * i, g.inc + 2 * j, g.Modulus());
  }

  lemma CloseNumbers(x: nat, y: nat, m: nat)
    requires x < y < x + m
    ensures x % m != y % m
  {
    if x % m == y % m {
      var p, q := x / m, y / m;
      assert m * q - m * p == y - x;
      if q <= p {
        MulMonotone(m, q, p);
      } else {
        MulMonotone(m, p + 1, q);
        MulDist(m, p, 1);
      }
    }
  }

  function NextState(g: Lcg, state: nat, i: nat): nat {
    (state * g.mult + g.inc + 2 * i) % g.Modulus()
  }

  lemma NextStateIsBump(g: Lcg, state: nat, i: nat)
    ensures NextState(g, state, i) == Bump(Slot(g, i), state)
  {
    hide Pow2;
    SumModulo(state * g.mult, g.inc, 2 * i, g.Modulus());
  }

  lemma SumModulo(x: nat, y: nat, z: nat, m: nat)
    requires m > 0
    ensures (x + y + z) % m == (x + (y + z) % m) % m
  {
    ModAdd(y + z, x, m);
  }

  /** `external_step`: the new word, and whether it is the zero word. */
  function ExternalStep(g: Lcg, word: nat, i: nat): (r: (nat, bool))
    requires Usable(g)
  {
    var state := Unoutput(word, g.bits);
    var next := NextState(g, state, i);
    (Output(next, g.bits), Output(next, g.bits) == 0)
  }

  /** The word after n calls of `external_step`. */
  function Steps(g: Lcg, word: nat, i: nat, n: nat): nat
    requires Usable(g)
  {
    if n == 0 then word else ExternalStep(g, Steps(g, word, i, n - 1), i).0
  }

  lemma StepIsBump(g: Lcg, state: nat, i: nat)
    requires Usable(g) && state < g.Modulus()
    ensures ExternalStep(g, Output(state, g.bits), i).0 == Output(Bump(Slot(g, i), state), g.bits)
  {
    hide Pow2, Output, Unoutput, NextState, Bump, Slot;
    UnoutputInverts(state, g.bits);
    NextStateIsBump(g, state, i);
  }

  /** Stepping the stored word is stepping the state behind it. */
  lemma {:induction false} StepsFollowState(g: Lcg, state: nat, i: nat, n: nat)
    requires Usable(g) && state < g.Modulus()
    ensures Steps(g, Output(state, g.bits), i, n) == Output(Iterate(Slot(g, i), state, n), g.bits)
  {
    hide Pow2, Output, ExternalStep, Bump;
    if n > 0 {
      StepsFollowState(g, state, i, n - 1);
      IterateBelow(Slot(g, i), state, n - 1);
      StepIsBump(g, Iterate(Slot(g, i), state, n - 1), i);
    }
  }

  /** The output function fixes zero, so a zero word marks a zero state. */
  lemma ZeroWord(state: nat, bits: nat)
    requires Width(bits) && state < Pow2(bits)
    ensures Output(state, bits) == 0 <==> state == 0
  {
    hide Pow2, Output, Unoutput;
    OutputOfZero(bits);
    UnoutputInverts(state, bits);
    UnoutputInverts(0, bits);
  }

  lemma OutputOfZero(bits: nat)
    requires Width(bits)
    ensures Output(0, bits) == 0
  {
    hide Pow2, McgMultiplier, RandomShift, OpBits, FinalShift, Xorshift;
    Positive(bits);
    XorshiftOfZero(OpBits(bits) + RandomShift(0, bits));
    ModSmall(0, Pow2(bits));
    XorshiftOfZero(FinalShift(bits));
  }

  lemma XorshiftOfZero(s: nat)
    ensures Xorshift(0, s) == 0
  {
    ModSmall(0, Pow2(s));
  }

  /** At most delta single steps lead from the zero word to this one. */
  ghost predicate ZeroBehind(g: Lcg, word: nat, i: nat, delta: nat)
    requires Usable(g)
  {
    exists k: nat :: k <= delta && Steps(g, 0, i, k) == word
  }

  /** The comparison of the negated distance with delta: 8 and 16-bit operands are promoted
      to int before they are negated, wider ones wrap. */
  function BackwardFlag(bits: nat, dist: nat, delta: nat): bool {
    if bits < 32 then 0 - dist <= delta else (Pow2(bits) - dist) % Pow2(bits) <= delta
  }

  /** The flag that a backward jump reports. */
  ghost predicate ReportedBehind(g: Lcg, word: nat, i: nat, delta: nat)
    requires Usable(g)
  {
    g.bits < 32 || ZeroBehind(g, word, i, delta)
  }

  /** `external_advance`: jumps over delta steps in either direction. The word is
      the one that single steps lead to, or from; the flag says whether zero lies
      on the way, the start included, but is always set backwards on states narrower
      than the language's int. */
  method ExternalAdvance(g: Lcg, word: nat, i: nat, delta: nat, forwards: bool) returns (r: nat, crossesZero: bool)
    requires Usable(g) && word < g.Modulus() && delta < g.Modulus()
    ensures r < g.Modulus()
    ensures forwards ==> r == Steps(g, word, i, delta)
    ensures !forwards ==> word == Steps(g, r, i, delta)
    ensures forwards ==>
      (crossesZero <==> word == 0 || exists k: nat :: 0 < k <= delta && Steps(g, word, i, k) == 0)
    ensures !forwards ==> (crossesZero <==> ReportedBehind(g, word, i, delta))
  {
    hide Pow2, Output, Unoutput, Iterate, Steps;
    SlotValid(g, i);
    OutputInverts(word, g.bits);
    var slot, m := Slot(g, i), g.Modulus();
    var state := Unoutput(word, g.bits);
    var distToZero := Distance(slot, state, 0, g.bits);
    crossesZero := if forwards then distToZero <= delta else BackwardFlag(g.bits, distToZero, delta);
    var d := if forwards then delta else (m - delta) % m;
    var moved := Advance(slot, state, d);
    r := Output(moved, g.bits);
    IterateBelow(slot, state, d);
    UnoutputInverts(moved, g.bits);
    if forwards {
      StepsFollowState(g, state, i, delta);
      Crossing(g, word, state, i, delta, distToZero);
    } else {
      BackstepUndoes(slot, state, delta);
      StepsFollowState(g, moved, i, delta);
      BackwardCrossing(g, word, state, i, delta, distToZero);
    }
  }

  /** Going backwards, zero is met within delta steps exactly when delta steps from zero can reach the word. */
  lemma BackwardCrossing(g: Lcg, word: nat, state: nat, i: nat, delta: nat, dist: nat)
    requires Usable(g) && Slot(g, i).Valid() && state < g.Modulus() && delta < g.Modulus()
    requires word == Output(state, g.bits)
    requires dist < g.Modulus() && Iterate(Slot(g, i), state, dist) % Pow2(g.bits) == 0 % Pow2(g.bits)
    ensures (g.Modulus() - dist) % g.Modulus() <= delta <==> ZeroBehind(g, word, i, delta)
  {
    hide Pow2, Output, Iterate, Steps;
    var back := BackDistance(g.Modulus(), dist);
    BackState(Slot(g, i), state, dist);
    OnlyFromZero(g, word, state, i, back, back);
    forall k: nat | k <= delta && Steps(g, 0, i, k) == word
      ensures k == back
    {
      OnlyFromZero(g, word, state, i, back, k);
    }
  }

  lemma BackState(slot: Lcg, state: nat, dist: nat)
    requires slot.Valid() && !slot.mcg && state < slot.Modulus() && dist < slot.Modulus()
    requires Iterate(slot, state, dist) % Pow2(slot.bits) == 0 % Pow2(slot.bits)
    ensures Iterate(slot, 0, BackDistance(slot.Modulus(), dist)) == state
  {
    hide Pow2, Iterate;
    IterateBelow(slot, state, dist);
    ModSmall(Iterate(slot, state, dist), slot.Modulus());
    ModSmall(0, slot.Modulus());
    BackstepUndoes(slot, state, dist);
  }

  function BackDistance(m: nat, dist: nat): (b: nat)
    requires dist < m
    ensures b == (m - dist) % m < m
  {
    (m - dist) % m
  }

  /** Within one period only one number of steps from zero reaches a state. */
  lemma OnlyFromZero(g: Lcg, word: nat, state: nat, i: nat, back: nat, k: nat)
    requires Usable(g) && Slot(g, i).Valid() && state < g.Modulus() && back < g.Modulus() && k < g.Modulus()
    requires word == Output(state, g.bits) && Iterate(Slot(g, i), 0, back) == state
    ensures Steps(g, 0, i, k) == word <==> k == back
  {
    hide Pow2, Output, Iterate, Steps, Unoutput;
    var slot := Slot(g, i);
    OutputOfZero(g.bits);
    StepsFollowState(g, 0, i, k);
    IterateBelow(slot, 0, k);
    UnoutputInverts(Iterate(slot, 0, k), g.bits);
    UnoutputInverts(state, g.bits);
    if k < back {
      OrbitInjective(slot, 0, k, back);
    } else if back < k {
      OrbitInjective(slot, 0, back, k);
    }
  }

  /** The distance to the zero state is at most delta exactly when the walk starts at zero or meets it. */
  lemma Crossing(g: Lcg, word: nat, state: nat, i: nat, delta: nat, dist: nat)
    requires Usable(g) && Slot(g, i).Valid() && state < g.Modulus() && delta < g.Modulus()
    requires word == Output(state, g.bits)
    requires dist < g.Modulus() && Iterate(Slot(g, i), state, dist) % Pow2(g.bits) == 0 % Pow2(g.bits)
    ensures dist <= delta <==> word == 0 || exists k: nat :: 0 < k <= delta && Steps(g, word, i, k) == 0
  {
    hide Pow2, Output, Iterate, Steps;
    var slot := Slot(g, i);
    IterateBelow(slot, state, dist);
    ModSmall(Iterate(slot, state, dist), g.Modulus());
    ModSmall(0, g.Modulus());
    ZeroWord(state, g.bits);
    StartOfWalk(slot, state);
    forall k: nat
      ensures Steps(g, word, i, k) == 0 <==> Iterate(slot, state, k) == 0
    {
      StepsFollowState(g, state, i, k);
      IterateBelow(slot, state, k);
      ZeroWord(Iterate(slot, state, k), g.bits);
    }
    forall k: nat | k <= delta && Iterate(slot, state, k) == 0
      ensures k == dist
    {
      if k != dist {
        OrbitInjective(slot, state, if k < dist then k else dist, if k < dist then dist else k);
      }
    }
    if dist <= delta && dist > 0 {
      assert Steps(g, word, i, dist) == 0;
    }
  }

  lemma StartOfWalk(g: Lcg, s: nat)
    ensures Iterate(g, s, 0) == s
  {
  }

  /** One of the first delta calls of `external_step` reports zero. */
  ghost predicate SomeStepReports(g: Lcg, word: nat, i: nat, delta: nat)
    requires Usable(g)
  {
    exists k: nat :: k < delta && ExternalStep(g, Steps(g, word, i, k), i).1
  }

  lemma StepReports(g: Lcg, word: nat, i: nat, k: nat)
    requires Usable(g)
    ensures ExternalStep(g, Steps(g, word, i, k), i).1 <==> Steps(g, word, i, k + 1) == 0
  {
    hide Pow2, Output, Unoutput, NextState;
  }

  lemma ReportsAreZeros(g: Lcg, word: nat, i: nat, delta: nat)
    requires Usable(g)
    ensures SomeStepReports(g, word, i, delta) <==> exists k: nat :: 0 < k <= delta && Steps(g, word, i, k) == 0
  {
    hide Pow2, Steps, ExternalStep;
    if SomeStepReports(g, word, i, delta) {
      var k: nat :| k < delta && ExternalStep(g, Steps(g, word, i, k), i).1;
      StepReports(g, word, i, k);
      assert Steps(g, word, i, k + 1) == 0;
    }
    if k: nat :| 0 < k <= delta && Steps(g, word, i, k) == 0 {
      StepReports(g, word, i, k - 1);
      assert ExternalStep(g, Steps(g, word, i, k - 1), i).1;
    }
  }

  /** The flag of one jump is the disjunction of the flags of the single steps exactly when the walk
      does not start at zero. */
  lemma FlagAgreesUnlessZero(g: Lcg, word: nat, i: nat, delta: nat, flag: bool)
    requires Usable(g) && word < g.Modulus() && delta < g.Modulus()
    requires flag <==> word == 0 || exists k: nat :: 0 < k <= delta && Steps(g, word, i, k) == 0
    ensures (flag <==> SomeStepReports(g, word, i, delta)) <==> word != 0
  {
    hide Pow2, Output, Unoutput, Iterate, Steps, SomeStepReports;
    ReportsAreZeros(g, word, i, delta);
    if word == 0 {
      forall k: nat | 0 < k <= delta
        ensures Steps(g, word, i, k) != 0
      {
        ZeroReturnsLate(g, i, k);
      }
    }
  }

  /** From the zero word no further zero comes within a period. */
  lemma ZeroReturnsLate(g: Lcg, i: nat, k: nat)
    requires Usable(g) && 0 < k < g.Modulus()
    ensures Steps(g, 0, i, k) != 0
  {
    hide Pow2, Output, Unoutput, Iterate, Steps;
    SlotValid(g, i);
    OutputOfZero(g.bits);
    var slot := Slot(g, i);
    StartOfWalk(slot, 0);
    StepsFollowState(g, 0, i, k);
    OrbitInjective(slot, 0, 0, k);
    IterateBelow(slot, 0, k);
    ZeroWord(Iterate(slot, 0, k), g.bits);
  }

  /** The flag of a backward jump is right exactly when the state has 32 bits or more, or zero
      really lies within delta steps back; so it is right for all jumps exactly from 32 bits on. */
  lemma BackwardFlagRight(g: Lcg, i: nat)
    requires Usable(g)
    ensures forall word: nat, delta: nat ::
      (ReportedBehind(g, word, i, delta) <==> ZeroBehind(g, word, i, delta))
      <==> g.bits >= 32 || ZeroBehind(g, word, i, delta)
    ensures (forall word: nat, delta: nat | word < g.Modulus() && delta < g.Modulus() ::
              ReportedBehind(g, word, i, delta) <==> ZeroBehind(g, word, i, delta))
       <==> g.bits >= 32
  {
    hide Pow2, Output, Unoutput, Iterate;
    if g.bits < 32 {
      Pow2Monotone(1, g.bits);
      Pow2Double(0);
      Pow2Zero();
      assert !ZeroBehind(g, 1, i, 0);
      assert ReportedBehind(g, 1, i, 0);
    }
  }

  /** An 8-bit generator, slot 1 and word 1: zero is not within one step back, yet every distance sets the flag. */
  lemma BackwardFlagFails(dist: nat)
    ensures var g := Lcg(8, 141, 77, false); Usable(g) && !ZeroBehind(g, 1, 1, 1) && BackwardFlag(g.bits, dist, 1)
  {
    hide Output, Unoutput, Steps, Iterate, Slot;
    var g := Lcg(8, 141, 77, false);
    Modulus8();
    WordOne();
    OutputOfZero(8);
    SlotOne();
    forall k: nat | k <= 1
      ensures Steps(g, 0, 1, k) != 1
    {
      StepsFollowState(g, 0, 1, k);
      UnoutputInverts(Iterate(Slot(g, 1), 0, k), 8);
      UnoutputInverts(101, 8);
    }
  }

  lemma Modulus8()
    ensures Pow2(8) == 256
  {
  }

  lemma SlotOne()
    ensures var slot := Slot(Lcg(8, 141, 77, false), 1); Iterate(slot, 0, 0) == 0 && Iterate(slot, 0, 1) == 79
  {
    Modulus8();
    var slot := Slot(Lcg(8, 141, 77, false), 1);
    assert Iterate(slot, 0, 1) == Bump(slot, Iterate(slot, 0, 0));
  }

  /** The state behind word 1. */
  lemma WordOne()
    ensures Output(101, 8) == 1
  {
    hide Pow2, Xor, Shr, RandomShift, Xorshift;
    Modulus8();
    ShiftOf101();
    FirstXorshift();
    LastXorshift();
  }

  lemma ShiftOf101()
    ensures RandomShift(101, 8) == 1
  {
    hide And;
    assert Shr(101, 6) == 1;
    AndLowMask(1, 2);
  }

  lemma FirstXorshift()
    ensures Xorshift(101, 3) == 105
  {
    assert Shr(101, 3) == 12;
    assert Xor(101, 12) == 105;
  }

  lemma LastXorshift()
    ensures Xorshift(1, 6) == 1
  {
    assert Shr(1, 6) == 0;
    XorZero(1);
  }
}
