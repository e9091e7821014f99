/** A PCG engine: the congruential state behind the RXS M XS output function. */
module PcgEngine {
  import opened Arithmetic
  import opened Bitwise
  import opened Congruential
  import opened Counting
  import opened PcgOutput

  /** Setting the two low bits, as an MCG does with its seed. */
  lemma OrThree(x: nat, bits: nat)
    requires 2 <= bits && x < Pow2(bits)
    ensures Or(x, 3) == 3 + 4 * (x / 4) && Or(x, 3) < Pow2(bits)
  {
    hide Pow2, Or;
    OrThreeValue(x);
    Pow2Double(bits - 1);
    Pow2Double(bits - 2);
  }

  lemma OrThreeValue(x: nat)
    ensures Or(x, 3) == 3 + 4 * (x / 4)
  {
    hide Or;
    OrZero(x / 4);
    OrOdd(x, 3);
    OrOdd(x / 2, 1);
    DivDiv(x, 2, 2);
  }

  lemma OrOdd(x: nat, y: nat)
    requires y % 2 == 1
    ensures Or(x, y) == 1 + 2 * Or(x / 2, y / 2)
  {
  }

  /** Stream increments are odd. */
  lemma StreamIncrement(q: nat, bits: nat)
    requires 1 <= bits
    ensures Or(Shl(q, 1, bits), 1) == (2 * q + 1) % Pow2(bits)
    ensures ((2 * q + 1) % Pow2(bits)) % 2 == 1
  {
    hide Pow2, Or;
    Pow2Zero();
    Pow2Double(0);
    Pow2Double(bits - 1);
    EvenRemainder(q, Pow2(bits - 1));
    OrOne(q % Pow2(bits - 1));
  }

  lemma OrOne(x: nat)
    ensures Or(x * 2, 1) == x * 2 + 1
  {
    Pow2Double(0);
    OrDisjoint(x, 1, 1);
  }

  lemma EvenRemainder(q: nat, h: nat)
    requires h > 0
    ensures (q * 2) % (2 * h) == (q % h) * 2
    ensures (2 * q + 1) % (2 * h) == (q % h) * 2 + 1
    ensures ((2 * q + 1) % (2 * h)) % 2 == 1
  {
    MulAssoc(2, h, q / h);
    DivModUnique(q * 2, 2 * h, q / h, (q % h) * 2);
    DivModUnique(2 * q + 1, 2 * h, q / h, (q % h) * 2 + 1);
  }

  function DefaultMultiplier(bits: nat): nat
    requires Width(bits)
  {
    match bits
    case 8 => 141
    case 16 => 12829
    case 32 => 747796405
    case 64 => 6364136223846793005
    case _ => 2549297995355413924 * 0x1_0000_0000_0000_0000 + 4865540595714422341
  }

  function DefaultIncrement(bits: nat): nat
    requires Width(bits)
  {
    match bits
    case 8 => 77
    case 16 => 47989
    case 32 => 2891336453
    case 64 => 1442695040888963407
    case _ => 6364136223846793005 * 0x1_0000_0000_0000_0000 + 1442695040888963407
  }

  /** The constants of every width make a valid generator: on one stream, on any selected
      stream, and as an MCG. */
  lemma DefaultsValid(bits: nat, stream: nat)
    requires Width(bits)
    ensures Lcg(bits, DefaultMultiplier(bits), DefaultIncrement(bits), false).Valid()
    ensures Lcg(bits, DefaultMultiplier(bits), (2 * stream + 1) % Pow2(bits), false).Valid()
    ensures Lcg(bits, DefaultMultiplier(bits), 0, true).Valid()
  {
    hide Pow2, DefaultMultiplier, DefaultIncrement;
    MultiplierFits(bits);
    IncrementFits(bits);
    StreamIncrement(stream, bits);
  }

  function DefaultLcg(bits: nat): Lcg
    requires Width(bits)
  {
    Lcg(bits, DefaultMultiplier(bits), DefaultIncrement(bits), false)
  }

  /** Where the default generators go from the states 0 and 1. */
  lemma DefaultSteps()
    ensures Bump(DefaultLcg(8), 0) == 0x4D
    ensures Bump(DefaultLcg(8), 1) == 0xDA
    ensures Bump(DefaultLcg(16), 0) == 0xBB75
    ensures Bump(DefaultLcg(16), 1) == 0xED92
    ensures Bump(DefaultLcg(32), 0) == 0xAC56_4B05
    ensures Bump(DefaultLcg(32), 1) == 0xD8E8_C2BA
    ensures Bump(DefaultLcg(64), 0) == 0x1405_7B7E_F767_814F
    ensures Bump(DefaultLcg(64), 1) == 0x6C57_6FAC_43FD_007C
    ensures Bump(DefaultLcg(128), 0) == 0x5851_F42D_4C95_7F2D_1405_7B7E_F767_814F
    ensures Bump(DefaultLcg(128), 1) == 0x7BB2_E132_6C5B_DCD1_578B_5AE3_9734_7794
  {
    hide Pow2;
    WidthModulus(8);
    WidthModulus(16);
    WidthModulus(32);
    WidthModulus(64);
    WidthModulus(128);
  }

  lemma MultiplierFits(bits: nat)
    requires Width(bits)
    ensures DefaultMultiplier(bits) < Pow2(bits)
    ensures DefaultMultiplier(bits) % 8 == 5 && DefaultMultiplier(bits) % 4 == 1
  {
    hide Pow2;
    WidthModulus(bits);
  }

  lemma IncrementFits(bits: nat)
    requires Width(bits)
    ensures DefaultIncrement(bits) < Pow2(bits) && DefaultIncrement(bits) % 2 == 1
  {
    hide Pow2;
    WidthModulus(bits);
  }

  /** The distance found is the only number of steps within a period. */
  lemma DistanceIsExact(g: Lcg, s: nat, goal: nat, d: nat)
    requires g.Valid() && g.State(s) && goal < g.Modulus() && d < Period(g)
    requires Iterate(g, s, d) % Pow2(g.bits) == goal % Pow2(g.bits)
    ensures forall n: nat | n < Period(g) :: Iterate(g, s, n) == goal <==> n == d
  {
    hide Pow2, Iterate;
    IterateState(g, s, d);
    ModSmall(Iterate(g, s, d), g.Modulus());
    ModSmall(goal, g.Modulus());
    forall n: nat | n < Period(g) && n != d
      ensures Iterate(g, s, n) != goal
    {
      OrbitInjective(g, s, if n < d then n else d, if n < d then d else n);
    }
  }

  /** The n-th output drawn from state s; post-advance engines output the bumped state. */
  function Draw(g: Lcg, outputPrevious: bool, s: nat, n: nat): nat
    requires Width(g.bits)
  {
    Output(Iterate(g, s, if outputPrevious then n else n + 1), g.bits)
  }

  /** Within a period no output value comes twice. */
  lemma DrawsDiffer(g: Lcg, outputPrevious: bool, s: nat, a: nat, b: nat)
    requires g.Valid() && g.State(s) && Width(g.bits) && a < b < Period(g)
    ensures Draw(g, outputPrevious, s, a) != Draw(g, outputPrevious, s, b)
  {
    hide Pow2, Iterate, Output, Unoutput;
    var s' := if outputPrevious then s else Iterate(g, s, 1);
    IterateState(g, s, 1);
    IterateAdd(g, s, 1, a);
    IterateAdd(g, s, 1, b);
    var x, y := Iterate(g, s', a), Iterate(g, s', b);
    OrbitInjective(g, s', a, b);
    IterateState(g, s', a);
    IterateState(g, s', b);
    UnoutputInverts(x, g.bits);
    UnoutputInverts(y, g.bits);
  }

  lemma BumpBelow(g: Lcg, s: nat)
    ensures Bump(g, s) < g.Modulus()
  {
  }

  lemma IterateNext(g: Lcg, s: nat, k: nat)
    ensures Iterate(g, s, 0) == s && Iterate(g, s, k + 1) == Bump(g, Iterate(g, s, k))
  {
  }

  lemma DrawShift(g: Lcg, outputPrevious: bool, s: nat, k: nat)
    requires Width(g.bits)
    ensures Draw(g, outputPrevious, Iterate(g, s, k), 0) == Draw(g, outputPrevious, s, k)
  {
    IterateAdd(g, s, k, 0);
    IterateAdd(g, s, k, 1);
  }

  /** A set of naturals below t has at most t elements. */
  lemma {:induction false} BelowThreshold(seen: set<nat>, t: nat)
    requires forall x | x in seen :: x < t
    ensures |seen| <= t
  {
    if t == 0 {
      assert seen == {};
    } else {
      BelowThreshold(seen - {t - 1}, t - 1);
      assert seen <= (seen - {t - 1}) + {t - 1};
      if t - 1 in seen {
        assert seen == (seen - {t - 1}) + {t - 1};
      } else {
        assert seen == seen - {t - 1};
      }
    }
  }

  /** `bounded_rand` rejects raw values below this. */
  function Threshold(m: nat, upperBound: nat): (t: nat)
    requires 0 < upperBound < m
    ensures t < upperBound
  {
    (m - upperBound) % upperBound
  }

  class Engine {
    const bits: nat
    const mult: nat
    const mcg: bool
    const outputPrevious: bool
    var inc: nat
    var state: nat

    ghost function Params(): Lcg
      reads this
    {
      Lcg(bits, mult, inc, mcg)
    }

    ghost predicate Valid()
      reads this
    {
      Width(bits) && Params().Valid() && Params().State(state) && (mcg ==> state % 4 == 3)
    }

    /** Seeding: an MCG sets the two low bits, the other streams mix the increment in. */
    constructor (bits: nat, mult: nat, inc: nat, mcg: bool, outputPrevious: bool, seed: nat)
      requires Width(bits) && Lcg(bits, mult, inc, mcg).Valid() && seed < Pow2(bits)
      ensures Valid()
      ensures Params() == Lcg(bits, mult, inc, mcg) && this.outputPrevious == outputPrevious
      ensures mcg ==> state / 4 == seed / 4
      ensures !mcg ==> state == Bump(Lcg(bits, mult, inc, mcg), (seed + inc) % Pow2(bits))
    {
      hide Pow2, Or, Bump;
      this.bits, this.mult, this.inc, this.mcg := bits, mult, inc, mcg;
      this.outputPrevious := outputPrevious;
      OrThree(seed, bits);
      BumpBelow(Lcg(bits, mult, inc, mcg), (seed + inc) % Pow2(bits));
      state := if mcg then Or(seed, 3) else Bump(Lcg(bits, mult, inc, mcg), (seed + inc) % Pow2(bits));
    }

    /** `set_stream`: selects the sequence with increment 2 * stream + 1. */
    method SetStream(specificSeq: nat)
      requires Valid() && !mcg && specificSeq < Pow2(bits)
      modifies this`inc
      ensures Valid()
      ensures inc == (2 * specificSeq + 1) % Pow2(bits)
    {
      hide Pow2;
      StreamIncrement(specificSeq, bits);
      inc := Or(Shl(specificSeq, 1, bits), 1);
    }

    /** `operator()`: outputs one word and moves the state one step. */
    method Next() returns (r: nat)
      requires Valid()
      modifies this`state
      ensures Valid() && state == Bump(Params(), old(state))
      ensures r == Output(if outputPrevious then old(state) else state, bits)
      ensures r == Draw(Params(), outputPrevious, old(state), 0)
    {
      hide Pow2, Bump, Output;
      IterateState(Params(), state, 1);
      var oldState := state;
      state := Bump(Lcg(bits, mult, inc, mcg), state);
      assert Iterate(Params(), oldState, 1) == Bump(Params(), Iterate(Params(), oldState, 0));
      r := Output(if outputPrevious then oldState else state, bits);
    }

    method Advance(delta: nat)
      requires Valid() && delta < Pow2(bits)
      modifies this`state
      ensures Valid() && state == Iterate(Params(), old(state), delta)
    {
      IterateState(Params(), state, delta);
      state := Congruential.Advance(Lcg(bits, mult, inc, mcg), state, delta);
    }

    /** `backstep`: afterwards, delta steps lead back to where the engine was. */
    method Backstep(delta: nat)
      requires Valid() && delta < Pow2(bits)
      modifies this`state
      ensures Valid() && Iterate(Params(), state, delta) == old(state)
    {
      hide Pow2, Iterate, Lcg.Valid;
      BackstepUndoes(Params(), state, delta);
      Advance((Pow2(bits) - delta) % Pow2(bits));
    }

    /** `operator-`: how many steps rhs has to make to hold this state. */
    method Minus(rhs: Engine) returns (d: nat)
      requires Valid() && rhs.Valid()
      requires rhs.bits == bits && rhs.mult == mult && rhs.mcg == mcg
      ensures d < Period(rhs.Params()) && Iterate(rhs.Params(), rhs.state, d) == state
      ensures forall n: nat | n < Period(rhs.Params()) && Iterate(rhs.Params(), rhs.state, n) == state :: n == d
    {
      ghost var g := rhs.Params();
      d := Congruential.Distance(Lcg(rhs.bits, rhs.mult, rhs.inc, rhs.mcg), rhs.state, state, bits);
      DistanceIsExact(g, rhs.state, state, d);
    }

    /** `bounded_rand`: draws until a raw value is not below the threshold. */
    method BoundedRand(upperBound: nat) returns (r: nat)
      requires Valid() && 0 < upperBound < Pow2(bits)
      modifies this`state
      ensures Valid() && r < upperBound
      ensures BoundedDraw(Params(), outputPrevious, old(state), upperBound, r, state)
    {
      hide Pow2, Iterate, Draw, Bump, Threshold, Period;
      ghost var g, start := Params(), state;
      var threshold := Threshold(Pow2(bits), upperBound);
      SomeAccepted(g, outputPrevious, start, upperBound);
      ghost var end: nat :| Draw(g, outputPrevious, start, end) >= threshold;
      ghost var k: nat := 0;
      IterateNext(g, start, 0);
      while true
        invariant Valid() && Params() == g && state == Iterate(g, start, k) && k <= end
        invariant forall i: nat | i < k :: Draw(g, outputPrevious, start, i) < threshold
        decreases end - k
      {
        DrawShift(g, outputPrevious, start, k);
        IterateNext(g, start, k);
        var raw := Next();
        if raw >= threshold {
          r := raw % upperBound;
          RejectedAtMost(g, outputPrevious, start, threshold, k);
          assert Accepts(g, outputPrevious, start, upperBound, k, r, state);
          return;
        }
        k := k + 1;
      }
    }
  }

  /** Draw k is the first one accepted; it decides the result and the state moves past it.
      At most `threshold` draws come before it when the period is longer than that. */
  ghost predicate Accepts(g: Lcg, prev: bool, start: nat, upperBound: nat, k: nat, r: nat, state: nat)
    requires g.Valid() && Width(g.bits) && 0 < upperBound < g.Modulus()
  {
    var t := Threshold(g.Modulus(), upperBound);
    && (t < Period(g) ==> k <= t)
    && (forall i: nat | i < k :: Draw(g, prev, start, i) < t)
    && Draw(g, prev, start, k) >= t
    && r == Draw(g, prev, start, k) % upperBound
    && state == Iterate(g, start, k + 1)
  }

  /** One bounded draw from a state: its result and the state it leaves. */
  ghost predicate BoundedDraw(g: Lcg, prev: bool, start: nat, upperBound: nat, r: nat, state: nat)
    requires g.Valid() && Width(g.bits) && 0 < upperBound < g.Modulus()
  {
    exists k: nat :: Accepts(g, prev, start, upperBound, k, r, state)
  }

  /** A state has one bounded draw. */
  lemma BoundedDrawUnique(g: Lcg, prev: bool, start: nat, upperBound: nat, r: nat, state: nat, r': nat, state': nat)
    requires g.Valid() && Width(g.bits) && 0 < upperBound < g.Modulus()
    requires BoundedDraw(g, prev, start, upperBound, r, state)
    requires BoundedDraw(g, prev, start, upperBound, r', state')
    ensures r == r' && state == state'
  {
    hide Pow2, Draw, Iterate, Threshold, Period;
    var k: nat :| Accepts(g, prev, start, upperBound, k, r, state);
    var k': nat :| Accepts(g, prev, start, upperBound, k', r', state');
    assert !(k < k') && !(k' < k);
  }

  ghost function Drawn(g: Lcg, prev: bool, s: nat, k: nat): set<nat>
    requires Width(g.bits)
  {
    set i: nat | i < k :: Draw(g, prev, s, i)
  }

  lemma {:induction false} DrawnSize(g: Lcg, prev: bool, s: nat, k: nat)
    requires g.Valid() && g.State(s) && Width(g.bits) && k <= Period(g)
    ensures |Drawn(g, prev, s, k)| == k
  {
    hide Pow2, Iterate, Draw, Period;
    if k == 0 {
      assert Drawn(g, prev, s, 0) == {};
    } else {
      DrawnSize(g, prev, s, k - 1);
      forall i: nat | i < k - 1
        ensures Draw(g, prev, s, i) != Draw(g, prev, s, k - 1)
      {
        DrawsDiffer(g, prev, s, i, k - 1);
      }
      assert Drawn(g, prev, s, k) == Drawn(g, prev, s, k - 1) + {Draw(g, prev, s, k - 1)};
    }
  }

  /** The draws within a period are all different, so at most t of them are below t. */
  lemma RejectedAtMost(g: Lcg, prev: bool, s: nat, t: nat, k: nat)
    requires g.Valid() && g.State(s) && Width(g.bits)
    requires forall i: nat | i < k :: Draw(g, prev, s, i) < t
    ensures t < Period(g) ==> k <= t
  {
    hide Pow2, Iterate, Draw, Period;
    if t < Period(g) && t < k {
      DrawnSize(g, prev, s, t + 1);
      BelowThreshold(Drawn(g, prev, s, t + 1), t);
    }
  }

  // ---- some draw is always accepted ----

  /** The multiplier takes these small words to the upper half, one for each of the two orbits
      of an MCG. */
  function HighState(bits: nat, low: nat): nat {
    if bits == 32 then low + 8 else if bits == 64 && low == 3 then 7 else low
  }

  lemma HighSmall(bits: nat, low: nat)
    requires Width(bits) && (low == 1 || low == 3)
    ensures HighState(bits, low) < Pow2(OpBits(bits)) && HighState(bits, low) % 4 == low
  {
    hide Pow2;
    Pow2Small();
  }

  lemma HighProduct(bits: nat, low: nat)
    requires Width(bits) && (low == 1 || low == 3)
    ensures 2 * ((HighState(bits, low) * McgMultiplier(bits)) % Pow2(bits)) >= Pow2(bits)
  {
    hide Pow2;
    WidthModulus(bits);
  }

  lemma Pow2Small()
    ensures Pow2(2) == 4 && Pow2(3) == 8 && Pow2(4) == 16 && Pow2(5) == 32 && Pow2(6) == 64
  {
    Pow2Double(5);
    Pow2Double(4);
    Pow2Double(3);
  }

  /** The first xorshift does not change a small word, and the last one keeps the top bit. */
  lemma OutputOfSmall(x: nat, bits: nat)
    requires Width(bits) && x < Pow2(OpBits(bits)) && 2 * ((x * McgMultiplier(bits)) % Pow2(bits)) >= Pow2(bits)
    ensures 2 * Output(x, bits) >= Pow2(bits)
  {
    hide Pow2, Xor, Shr, OpBits, RandomShift, FinalShift, McgMultiplier;
    Positive(bits);
    var s, f, z := OpBits(bits) + RandomShift(x, bits), FinalShift(bits), (x * McgMultiplier(bits)) % Pow2(bits);
    Pow2Monotone(OpBits(bits), s);
    ShrSmall(x, s);
    XorZero(x);
    assert Output(x, bits) == Xorshift(z, f);
    Pow2Monotone(bits - 1, bits - 1 + f - 1);
    Pow2Double(bits - 1);
    Pow2Monotone(bits, bits - 1 + f);
    ShrBelow(z, f, bits - 1);
    XorHigh(z, Shr(z, f), bits - 1);
    TopBitSet(z, bits - 1);
    TopBitSet(Xorshift(z, f), bits - 1);
  }

  lemma ShrSmall(x: nat, s: nat)
    requires x < Pow2(s)
    ensures Shr(x, s) == 0
  {
    hide Pow2;
    ModSmall(x, Pow2(s));
  }

  lemma TopBitSet(x: nat, k: nat)
    ensures x >= Pow2(k) <==> Shr(x, k) > 0
  {
    hide Pow2;
    if x < Pow2(k) {
      ModSmall(x, Pow2(k));
    } else {
      DivMonotone(Pow2(k), x, Pow2(k));
    }
  }

  lemma ThresholdBelowHalf(m: nat, upperBound: nat)
    requires 0 < upperBound < m
    ensures 2 * Threshold(m, upperBound) <= m
  {
    var x := m - upperBound;
    if x < upperBound {
      ModSmall(x, upperBound);
    }
  }

  /** From every state and for every bound some draw is accepted, so `bounded_rand` ends. */
  lemma SomeAccepted(g: Lcg, prev: bool, s: nat, upperBound: nat)
    requires g.Valid() && g.State(s) && Width(g.bits) && 0 < upperBound < g.Modulus()
    ensures exists k: nat :: Draw(g, prev, s, k) >= Threshold(g.Modulus(), upperBound)
    ensures !g.mcg || upperBound <= Period(g) ==> Threshold(g.Modulus(), upperBound) < Period(g)
  {
    hide Pow2, Iterate, Output, Threshold, HighState, Lcg.Valid;
    ThresholdBelowHalf(g.Modulus(), upperBound);
    var skip: nat := if prev then 0 else 1;
    var k, low := ReachHigh(g, Iterate(g, s, skip), s, skip);
    IterateAdd(g, s, skip, k);
    HighSmall(g.bits, low);
    HighProduct(g.bits, low);
    OutputOfSmall(HighState(g.bits, low), g.bits);
    assert Draw(g, prev, s, k) == Output(HighState(g.bits, low), g.bits);
  }

  lemma ReachHigh(g: Lcg, s': nat, s: nat, skip: nat) returns (k: nat, low: nat)
    requires g.Valid() && g.State(s) && Width(g.bits) && s' == Iterate(g, s, skip)
    ensures (low == 1 || low == 3) && Iterate(g, s', k) == HighState(g.bits, low)
  {
    hide Pow2, Iterate, HighState, Lcg.Valid, OpBits, McgMultiplier;
    IterateState(g, s, skip);
    low := if s' % 4 == 3 then 3 else 1;
    if g.mcg {
      OddRemainder(s');
    }
    HighSmall(g.bits, low);
    SmallIsState(g.bits, HighState(g.bits, low));
    k := Reach(g, s', HighState(g.bits, low));
  }

  lemma OddRemainder(x: nat)
    requires x % 2 == 1
    ensures x % 4 == 1 || x % 4 == 3
  {
    ModMod(x, 2, 2);
    var r := x % 4;
    assert r != 0 && r != 2;
  }

  lemma Reach(g: Lcg, s: nat, goal: nat) returns (k: nat)
    requires g.Valid() && g.State(s) && goal < g.Modulus() && (g.mcg ==> goal % 4 == s % 4)
    ensures Iterate(g, s, k) == goal
  {
    hide Pow2, Iterate, Lcg.Valid, Period;
    OrbitIsEverything(g, s, goal);
    k :| Iterate(g, s, k) == goal;
  }

  lemma SmallIsState(bits: nat, x: nat)
    requires Width(bits) && x < Pow2(OpBits(bits))
    ensures x < Pow2(bits)
  {
    hide Pow2;
    Pow2Monotone(OpBits(bits), bits);
  }

  // ---- bounded_rand is exactly unbiased ----

  /** The states whose next word is accepted and reduced to r. */
  ghost function Accepting(bits: nat, upperBound: nat, r: nat): set<nat>
    requires Width(bits) && 0 < upperBound < Pow2(bits)
  {
    set s: nat | s < Pow2(bits) && Threshold(Pow2(bits), upperBound) <= Output(s, bits)
                 && Output(s, bits) % upperBound == r
  }

  /** A bounded draw with result r comes from a state of that set: the one whose word it reduced. */
  lemma DrawnFromAccepting(g: Lcg, prev: bool, start: nat, upperBound: nat, r: nat, state: nat) returns (used: nat)
    requires g.Valid() && g.State(start) && Width(g.bits) && 0 < upperBound < g.Modulus()
    requires BoundedDraw(g, prev, start, upperBound, r, state)
    ensures used in Accepting(g.bits, upperBound, r) && state == if prev then Bump(g, used) else used
  {
    hide Pow2, Iterate, Output, Threshold, Bump, Period;
    var k: nat :| Accepts(g, prev, start, upperBound, k, r, state);
    used := Iterate(g, start, if prev then k else k + 1);
    IterateState(g, start, k);
    IterateState(g, start, k + 1);
    IterateNext(g, start, k);
  }

  /** And every state of that set is drawn at once by an engine that stands before it. */
  lemma AcceptingIsDrawn(g: Lcg, prev: bool, start: nat, upperBound: nat, r: nat)
    requires g.Valid() && g.State(start) && Width(g.bits) && 0 < upperBound < g.Modulus()
    requires (if prev then start else Bump(g, start)) in Accepting(g.bits, upperBound, r)
    ensures BoundedDraw(g, prev, start, upperBound, r, Bump(g, start))
  {
    hide Pow2, Iterate, Output, Threshold, Bump, Period;
    IterateNext(g, start, 0);
    assert Accepts(g, prev, start, upperBound, 0, r, Bump(g, start));
  }

  /** Every result below the bound is produced by the same number of words, and of states. */
  lemma BoundedRandUnbiased(bits: nat, upperBound: nat, r: nat)
    requires Width(bits) && 0 < upperBound < Pow2(bits) && r < upperBound
    ensures |Accepting(bits, upperBound, r)| == Pow2(bits) / upperBound
  {
    hide Pow2, Output, Unoutput;
    var m, t, q := Pow2(bits), Threshold(Pow2(bits), upperBound), Pow2(bits) / upperBound;
    ModAddMultiple(m - upperBound, 1, upperBound);
    assert m == t + upperBound * q;
    ResiduesSize(t, upperBound, q, r);
    var words, states := Residues(t, upperBound, q, r), Accepting(bits, upperBound, r);
    forall s | s in states
      ensures Output(s, bits) in words
    {
      UnoutputInverts(s, bits);
    }
    forall x | x in words
      ensures Unoutput(x, bits) in states && Output(Unoutput(x, bits), bits) == x
    {
      OutputInverts(x, bits);
    }
    forall s, s' | s in states && s' in states && Output(s, bits) == Output(s', bits)
      ensures s == s'
    {
      UnoutputInverts(s, bits);
      UnoutputInverts(s', bits);
    }
    SameSize(states, words, (s: nat) => Output(s, bits));
  }
}
