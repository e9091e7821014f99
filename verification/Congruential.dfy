/** The linear congruential state underneath every PCG engine: the recurrence
    `bump`, the logarithmic jump `advance`, the bit-by-bit discrete logarithm
    `distance`, and the period they imply. Arithmetic is modulo 2^bits, as the
    unsigned state type makes it. */
module Congruential {
  import opened Arithmetic
  import opened Bitwise

  /** Multiplier and increment of one stream; `mcg` is the stream's is_mcg flag. */
  datatype Lcg = Lcg(bits: nat, mult: nat, inc: nat, mcg: bool) {

    function Modulus(): (m: nat)
      ensures m > 0
    {
      Pow2(bits)
    }

    /** Low state bits that never change: two for an MCG, none otherwise. */
    function Fixed(): nat {
      if mcg then 2 else 0
    }

    /** A multiplier and increment of full period; an MCG adds nothing. */
    predicate Valid() {
      && 3 <= bits
      && mult < Modulus() && inc < Modulus()
      && (if mcg then mult % 8 == 5 && inc == 0 else mult % 4 == 1 && inc % 2 == 1)
    }

    /** A state the engine can hold: an MCG keeps its low bit set. */
    predicate State(s: nat) {
      s < Modulus() && (mcg ==> s % 2 == 1)
    }
  }

  function Bump(g: Lcg, s: nat): nat {
    (s * g.mult + g.inc) % g.Modulus()
  }

  /** The state after n single steps: the reference that `advance` must match. */
  function Iterate(g: Lcg, s: nat, n: nat): nat {
    if n == 0 then s else Bump(g, Iterate(g, s, n - 1))
  }

  lemma {:induction false} IterateAdd(g: Lcg, s: nat, a: nat, b: nat)
    ensures Iterate(g, s, a + b) == Iterate(g, Iterate(g, s, a), b)
    decreases b
  {
    if b > 0 {
      IterateAdd(g, s, a, b - 1);
    }
  }

  lemma {:induction false} IterateBelow(g: Lcg, s: nat, n: nat)
    requires s < g.Modulus()
    ensures Iterate(g, s, n) < g.Modulus()
  {
  }

  // ---- n steps in closed form ----

  /** 1 + a + ... + a^(n-1). */
  function Geometric(a: nat, n: nat): nat {
    if n == 0 then 0 else Geometric(a, n - 1) + Power(a, n - 1)
  }

  lemma {:induction false} GeometricNext(a: nat, n: nat)
    ensures Geometric(a, n + 1) == a * Geometric(a, n) + 1
  {
    if n > 0 {
      GeometricNext(a, n - 1);
      MulDist(a, Geometric(a, n - 1), Power(a, n - 1));
    }
  }

  /** n steps multiply by the n-th power and add the increment times a geometric sum. */
  lemma {:induction false} StepsInClosedForm(g: Lcg, s: nat, n: nat)
    requires s < g.Modulus()
    ensures Iterate(g, s, n) == (Power(g.mult, n) * s + g.inc * Geometric(g.mult, n)) % g.Modulus()
  {
    hide Pow2, Power, Geometric;
    PowerNext(g.mult, n);
    if n == 0 {
      ModSmall(s, g.Modulus());
    } else {
      PowerNext(g.mult, n - 1);
      GeometricNext(g.mult, n - 1);
      StepsInClosedForm(g, s, n - 1);
      ClosedStep(g.mult, g.inc, s, Power(g.mult, n - 1), Geometric(g.mult, n - 1), g.Modulus());
    }
  }

  lemma PowerNext(a: nat, n: nat)
    ensures Power(a, 0) == 1 && Geometric(a, 0) == 0 && Power(a, n + 1) == a * Power(a, n)
  {
  }

  lemma ClosedStep(a: nat, c: nat, s: nat, p: nat, q: nat, m: nat)
    requires m > 0
    ensures (((p * s + c * q) % m) * a + c) % m == ((a * p) * s + c * (a * q + 1)) % m
  {
    var x := p * s + c * q;
    ModMul(x, a, m);
    ModAdd((x % m) * a, c, m);
    ModAdd(x * a, c, m);
    ClosedRing(a, c, s, p, q);
  }

  lemma ClosedRing(a: int, c: int, s: int, p: int, q: int)
    ensures (p * s + c * q) * a + c == (a * p) * s + c * (a * q + 1)
  {
    MulDistRight(p * s, c * q, a);
    assert (p * s) * a == (a * p) * s;
    assert (c * q) * a == c * (a * q);
    MulDist(c, a * q, 1);
  }

  // ---- affine maps: the accumulators of advance and distance ----

  datatype Affine = Affine(mult: nat, plus: nat)

  function Apply(m: nat, f: Affine, s: nat): nat
    requires m > 0
  {
    (f.mult * s + f.plus) % m
  }

  /** First f, then h, both reduced modulo m. */
  function Then(m: nat, f: Affine, h: Affine): Affine
    requires m > 0
  {
    Affine((f.mult * h.mult) % m, (f.plus * h.mult + h.plus) % m)
  }

  lemma ThenApplies(m: nat, f: Affine, h: Affine, s: nat)
    requires m > 0
    ensures Apply(m, Then(m, f, h), s) == Apply(m, h, Apply(m, f, s))
  {
    ComposeModulo(f.mult, f.plus, h.mult, h.plus, s, m);
  }

  lemma ComposeModulo(a: int, p: int, c: int, q: int, s: int, m: int)
    requires m > 0
    ensures (((a * c) % m) * s + (p * c + q) % m) % m == (c * ((a * s + p) % m) + q) % m
  {
    ModAffine(a * c, p * c + q, s, m);
    var y := a * s + p;
    ModAffine(y, q, c, m);
    assert (y % m) * c == c * (y % m);
    ComposeRing(a, p, c, q, s);
  }

  lemma ComposeRing(a: int, p: int, c: int, q: int, s: int)
    ensures (a * c) * s + (p * c + q) == (a * s + p) * c + q
  {
  }

  /** Doubling a stride, as the loops of advance and distance update cur_mult and cur_plus. */
  function Squared(m: nat, f: Affine): Affine
    requires m > 0
  {
    Affine((f.mult * f.mult) % m, ((f.mult + 1) * f.plus) % m)
  }

  lemma SquaredIsTwice(m: nat, f: Affine)
    requires m > 0
    ensures Squared(m, f) == Then(m, f, f)
  {
    assert (f.mult + 1) * f.plus == f.plus * f.mult + f.plus;
  }

  /** f performs exactly n steps of g, on every state. */
  ghost predicate Performs(g: Lcg, f: Affine, n: nat) {
    forall s: nat | s < g.Modulus() :: Apply(g.Modulus(), f, s) == Iterate(g, s, n)
  }

  lemma PerformsThen(g: Lcg, f: Affine, n: nat, h: Affine, k: nat)
    requires Performs(g, f, n) && Performs(g, h, k)
    ensures Performs(g, Then(g.Modulus(), f, h), n + k)
  {
    var m := g.Modulus();
    forall s: nat | s < m
      ensures Apply(m, Then(m, f, h), s) == Iterate(g, s, n + k)
    {
      ThenApplies(m, f, h, s);
      assert Apply(m, f, s) == Iterate(g, s, n);
      assert Apply(m, h, Apply(m, f, s)) == Iterate(g, Apply(m, f, s), k);
      IterateAdd(g, s, n, k);
    }
  }

  /** `advance`: jumps over delta steps in a number of rounds logarithmic in delta. */
  method Advance(g: Lcg, state: nat, delta: nat) returns (r: nat)
    requires g.mult < g.Modulus() && g.inc < g.Modulus() && state < g.Modulus()
    ensures r == Iterate(g, state, delta)
  {
    var m := g.Modulus();
    var cur, acc := Affine(g.mult, g.inc), Affine(1 % m, 0);
    var d: nat := delta;
    ghost var done: nat, stride: nat := 0, 1;
    PerformsOne(g);
    PerformsNone(g);
    while d > 0
      invariant Performs(g, acc, done)
      invariant Performs(g, cur, stride)
      invariant done + d * stride == delta
    {
      HalveDelta(d, stride);
      if d % 2 == 1 {
        PerformsThen(g, acc, done, cur, stride);
        acc := Then(m, acc, cur);
        done := done + stride;
      }
      PerformsSquared(g, cur, stride);
      cur := Squared(m, cur);
      d := d / 2;
      stride := 2 * stride;
    }
    assert done == delta;
    r := Apply(m, acc, state);
  }

  lemma HalveDelta(d: nat, stride: nat)
    ensures d * stride == (d / 2) * (2 * stride) + (if d % 2 == 1 then stride else 0)
  {
    var h := d / 2;
    assert d == 2 * h + d % 2;
    MulAssoc(h, 2, stride);
  }

  lemma PerformsSquared(g: Lcg, f: Affine, n: nat)
    requires Performs(g, f, n)
    ensures Performs(g, Squared(g.Modulus(), f), 2 * n)
  {
    PerformsThen(g, f, n, f, n);
    SquaredIsTwice(g.Modulus(), f);
  }

  lemma PerformsOne(g: Lcg)
    ensures Performs(g, Affine(g.mult, g.inc), 1)
  {
    forall s: nat | s < g.Modulus()
      ensures Apply(g.Modulus(), Affine(g.mult, g.inc), s) == Iterate(g, s, 1)
    {
      assert Iterate(g, s, 1) == Bump(g, Iterate(g, s, 0));
      assert g.mult * s == s * g.mult;
    }
  }

  lemma PerformsNone(g: Lcg)
    ensures Performs(g, Affine(1 % g.Modulus(), 0), 0)
  {
    var m := g.Modulus();
    forall s: nat | s < m
      ensures Apply(m, Affine(1 % m, 0), s) == Iterate(g, s, 0)
    {
      ModMul(1, s, m);
      ModSmall(s, m);
    }
  }

  // ---- strides: the map after j squarings performs 2^j steps ----

  function Stride(g: Lcg, j: nat): Affine {
    if j == 0 then Affine(g.mult, g.inc)
    else Squared(g.Modulus(), Stride(g, j - 1))
  }

  lemma StrideNext(g: Lcg, j: nat)
    ensures Stride(g, 0) == Affine(g.mult, g.inc) && Stride(g, j + 1) == Squared(g.Modulus(), Stride(g, j))
  {
    hide Squared;
  }

  lemma {:induction false} StridePerforms(g: Lcg, j: nat)
    ensures Performs(g, Stride(g, j), Pow2(j))
  {
    if j == 0 {
      PerformsOne(g);
    } else {
      StridePerforms(g, j - 1);
      PerformsSquared(g, Stride(g, j - 1), Pow2(j - 1));
    }
  }

  /** The residues of the j-th stride that make it flip exactly bit j (bit j + 2 of an MCG). */
  predicate Shape(g: Lcg, f: Affine, j: nat) {
    if g.mcg then
      f.plus == 0 && f.mult % Pow2(j + 3) == 1 + Pow2(j + 2)
    else
      f.mult % 4 == 1 && f.mult % Pow2(j + 1) == 1 && f.plus % Pow2(j + 1) == Pow2(j)
  }

  lemma SquareOne(mult: nat, h: nat)
    requires h > 0 && mult % (2 * h) == 1
    ensures (mult * mult) % (4 * h) == 1
  {
    var t := mult / (2 * h);
    var k := h * t;
    assert mult == 1 + 2 * k by { MulAssoc(2, h, t); }
    assert mult * mult == 1 + 4 * (k * (1 + k));
    MulAssoc(h, t, 1 + k);
    MulAssoc(4, h, t * (1 + k));
    DivModUnique(mult * mult, 4 * h, t * (1 + k), 1);
  }

  lemma SquarePlus(mult: nat, plus: nat, h: nat)
    requires h > 0 && mult % 4 == 1 && plus % (2 * h) == h
    ensures ((mult + 1) * plus) % (4 * h) == 2 * h
  {
    var u, v := mult / 4, plus / (2 * h);
    var w := u + v + 2 * (v * u);
    assert plus == h * (1 + 2 * v) by { MulAssoc(2, h, v); MulDist(h, 1, 2 * v); MulAssoc(h, 2, v); }
    OddProduct(h, u, v);
    DivModUnique((mult + 1) * plus, 4 * h, w, 2 * h);
  }

  lemma OddProduct(h: int, u: int, v: int)
    ensures (2 * (1 + 2 * u)) * (h * (1 + 2 * v)) == (4 * h) * (u + v + 2 * (v * u)) + 2 * h
  {
    var b, c := 1 + 2 * v, 1 + 2 * u;
    var w := u + v + 2 * (v * u);
    assert (2 * c) * (h * b) == (2 * h) * (b * c);
    assert b * c == 1 + 2 * w;
    assert (2 * h) * (1 + 2 * w) == 2 * h + (4 * h) * w by {
      MulDist(2 * h, 1, 2 * w);
      MulAssoc(2 * h, 2, w);
    }
  }

  lemma SquareMcg(mult: nat, h: nat)
    requires h > 0 && mult % (8 * h) == 1 + 4 * h
    ensures (mult * mult) % (16 * h) == 1 + 8 * h
  {
    var t := mult / (8 * h);
    var k := h * (1 + 2 * t);
    var w := t + (1 + 2 * t) * k;
    assert mult == 1 + 4 * k by { MulAssoc(8, h, t); MulDist(h, 1, 2 * t); MulAssoc(h, 2, t); }
    assert mult * mult == 1 + 8 * k + 16 * (k * k);
    assert k * k == h * ((1 + 2 * t) * k) by { MulAssoc(h, 1 + 2 * t, k); }
    assert k == h + 2 * (h * t);
    assert h * w == h * t + h * ((1 + 2 * t) * k) by { MulDist(h, t, (1 + 2 * t) * k); }
    assert mult * mult == (16 * h) * w + (1 + 8 * h) by { MulAssoc(16, h, w); }
    DivModUnique(mult * mult, 16 * h, w, 1 + 8 * h);
  }

  lemma {:induction false} StrideShape(g: Lcg, j: nat)
    requires g.Valid() && j + g.Fixed() < g.bits
    ensures Shape(g, Stride(g, j), j)
  {
    if j == 0 {
      assert Pow2(1) == 2 && Pow2(2) == 4 && Pow2(3) == 8;
    } else {
      StrideShape(g, j - 1);
      if g.mcg {
        ShapeStepMcg(g, Stride(g, j - 1), j);
      } else {
        ShapeStepLcg(g, Stride(g, j - 1), j);
      }
    }
  }

  lemma ShapeStepMcg(g: Lcg, f: Affine, j: nat)
    requires g.mcg && 0 < j && j + 2 < g.bits && Shape(g, f, j - 1)
    ensures Shape(g, Squared(g.Modulus(), f), j)
  {
    hide Pow2;
    var h, square := Pow2(j - 1), f.mult * f.mult;
    Pow2Double(j - 1);
    Pow2Double(j);
    Pow2Double(j + 1);
    Pow2Double(j + 2);
    SquareMcg(f.mult, h);
    ModPow2(square, j + 3, g.bits);
    ModSmall(0, g.Modulus());
  }

  lemma ShapeStepLcg(g: Lcg, f: Affine, j: nat)
    requires !g.mcg && 0 < j && j < g.bits && 3 <= g.bits && Shape(g, f, j - 1)
    ensures Shape(g, Squared(g.Modulus(), f), j)
  {
    var h := Pow2(j - 1);
    assert Pow2(2) == 4 && Pow2(j) == 2 * h && Pow2(j + 1) == 4 * h;
    SquareOne(f.mult, 1);
    SquareOne(f.mult, h);
    SquarePlus(f.mult, f.plus, h);
    ModPow2(f.mult * f.mult, 2, g.bits);
    ModPow2(f.mult * f.mult, j + 1, g.bits);
    ModPow2((f.mult + 1) * f.plus, j + 1, g.bits);
  }

  lemma ShiftLcg(mult: nat, plus: nat, s: nat, h: nat)
    requires h > 0 && mult % (2 * h) == 1 && plus % (2 * h) == h
    ensures (mult * s + plus) % (2 * h) == (s + h) % (2 * h)
  {
    var p := 2 * h;
    var t, v := mult / p, plus / p;
    assert mult == 1 + p * t && plus == h + p * v;
    MulDistRight(1, p * t, s);
    MulAssoc(p, t, s);
    MulDist(p, t * s, v);
    assert mult * s + plus == s + h + p * (t * s + v);
    ModSame(mult * s + plus, s + h, t * s + v, p);
  }

  lemma ShiftMcg(mult: nat, s: nat, h: nat)
    requires h > 0 && mult % (2 * h) == 1 + h && s % 2 == 1
    ensures (mult * s) % (2 * h) == (s + h) % (2 * h)
  {
    var t, u := mult / (2 * h), s / 2;
    var w := u + t + 2 * (t * u);
    assert mult == 1 + h * (1 + 2 * t) by { MulAssoc(2, h, t); MulDist(h, 1, 2 * t); MulAssoc(h, 2, t); }
    OddTimes(t, u);
    McgTimes(mult, s, h, 1 + 2 * t, w);
    ModSame(mult * s, s + h, w, 2 * h);
  }

  lemma OddTimes(t: int, u: int)
    ensures (1 + 2 * t) * (1 + 2 * u) == 1 + 2 * (u + t + 2 * (t * u))
  {
  }

  lemma McgTimes(mult: int, s: int, h: int, odd: int, w: int)
    requires mult == 1 + h * odd && odd * s == 1 + 2 * w
    ensures mult * s == s + h + (2 * h) * w
  {
    MulDistRight(1, h * odd, s);
    MulAssoc(h, odd, s);
    MulDist(h, 1, 2 * w);
    MulAssoc(2, h, w);
    MulAssoc(h, 2, w);
  }

  /** 2^j steps leave the bits below j + Fixed alone and flip the next one. */
  lemma StrideShift(g: Lcg, j: nat, s: nat)
    requires g.Valid() && g.State(s) && j + g.Fixed() < g.bits
    ensures Iterate(g, s, Pow2(j)) % Pow2(j + g.Fixed() + 1)
         == (s + Pow2(j + g.Fixed())) % Pow2(j + g.Fixed() + 1)
  {
    StridePerforms(g, j);
    StrideShape(g, j);
    var f, h := Stride(g, j), Pow2(j + g.Fixed());
    Pow2Double(j + g.Fixed());
    assert Iterate(g, s, Pow2(j)) == Apply(g.Modulus(), f, s);
    ModPow2(f.mult * s + f.plus, j + g.Fixed() + 1, g.bits);
    if g.mcg {
      ShiftMcg(f.mult, s, h);
    } else {
      ShiftLcg(f.mult, f.plus, s, h);
    }
  }

  lemma TimesFive(x: nat, mult: nat)
    requires mult % 8 == 5
    ensures (x * mult) % 4 == x % 4
  {
    var t := mult / 8;
    assert x * mult == x + 4 * (x + 2 * (x * t));
    ModSame(x * mult, x, x + 2 * (x * t), 4);
  }

  lemma BumpMcg(g: Lcg, x: nat)
    requires g.Valid() && g.mcg
    ensures Bump(g, x) < g.Modulus() && Bump(g, x) % 4 == x % 4 && Bump(g, x) % 2 == x % 2
  {
    TimesFive(x, g.mult);
    assert Pow2(2) == 4;
    ModPow2(x * g.mult + g.inc, 2, g.bits);
    ModMod(x, 2, 2);
    ModMod(Bump(g, x), 2, 2);
  }

  lemma {:induction false} IterateState(g: Lcg, s: nat, n: nat)
    requires g.Valid() && g.State(s)
    ensures g.State(Iterate(g, s, n))
    ensures g.mcg ==> Iterate(g, s, n) % 4 == s % 4
  {
    if n > 0 {
      var x := Iterate(g, s, n - 1);
      IterateState(g, s, n - 1);
      if g.mcg {
        BumpMcg(g, x);
      }
    }
  }

  /** q strides of 2^j steps add q * 2^(j + Fixed) modulo 2^(j + Fixed + 1). */
  lemma StrideRepeat(g: Lcg, j: nat, q: nat, s: nat)
    requires g.Valid() && g.State(s) && j + g.Fixed() < g.bits
    ensures Iterate(g, s, Pow2(j) * q) % Pow2(j + g.Fixed() + 1)
         == (s + Pow2(j + g.Fixed()) * q) % Pow2(j + g.Fixed() + 1)
  {
    hide Pow2, Iterate, Lcg.Valid;
    MulMonotone(Pow2(j), 0, q);
    MulMonotone(Pow2(j + g.Fixed()), 0, q);
    StrideTimes(g, j, q, s, Pow2(j) * q, Pow2(j + g.Fixed()) * q);
  }

  lemma {:induction false} StrideTimes(g: Lcg, j: nat, q: nat, s: nat, n: nat, a: nat)
    requires g.Valid() && g.State(s) && j + g.Fixed() < g.bits
    requires n == Pow2(j) * q && a == Pow2(j + g.Fixed()) * q
    ensures Iterate(g, s, n) % Pow2(j + g.Fixed() + 1) == (s + a) % Pow2(j + g.Fixed() + 1)
    decreases q
  {
    hide Pow2, Iterate, Lcg.Valid;
    if q == 0 {
      IterateZero(g, s);
    } else {
      var d, h := Pow2(j), Pow2(j + g.Fixed());
      MulDist(d, q - 1, 1);
      MulDist(h, q - 1, 1);
      MulMonotone(d, 0, q - 1);
      MulMonotone(h, 0, q - 1);
      StrideTimes(g, j, q - 1, s, n - d, a - h);
      OneStride(g, j, s, n - d, a - h);
    }
  }

  lemma OneStride(g: Lcg, j: nat, s: nat, n: nat, a: nat)
    requires g.Valid() && g.State(s) && j + g.Fixed() < g.bits
    requires Iterate(g, s, n) % Pow2(j + g.Fixed() + 1) == (s + a) % Pow2(j + g.Fixed() + 1)
    ensures Iterate(g, s, n + Pow2(j)) % Pow2(j + g.Fixed() + 1)
         == (s + a + Pow2(j + g.Fixed())) % Pow2(j + g.Fixed() + 1)
  {
    hide Pow2, Iterate, Lcg.Valid;
    var x := Iterate(g, s, n);
    IterateAdd(g, s, n, Pow2(j));
    IterateState(g, s, n);
    StrideShift(g, j, x);
    AddStride(x, Iterate(g, s, n + Pow2(j)), s + a, Pow2(j + g.Fixed()), Pow2(j + g.Fixed() + 1));
  }

  lemma IterateZero(g: Lcg, s: nat)
    ensures Iterate(g, s, 0) == s
  {
  }

  lemma AddStride(x: nat, y: nat, z: nat, h: nat, p: nat)
    requires p > 0 && x % p == z % p && y % p == (x + h) % p
    ensures y % p == (z + h) % p
  {
    ModAdd(x, h, p);
    ModAdd(z, h, p);
  }

  // ---- the period ----

  /** Every positive n is an odd multiple of a power of two. */
  lemma {:induction false} OddPart(n: nat) returns (j: nat, q: nat)
    requires n > 0
    ensures n == Pow2(j) * q && q % 2 == 1
  {
    if n % 2 == 1 {
      j, q := 0, n;
    } else {
      j, q := OddPart(n / 2);
      j := j + 1;
      MulAssoc(2, Pow2(j - 1), q);
    }
  }

  /** Steps by an odd multiple of 2^j change the low j + Fixed + 1 bits. */
  lemma OddStrideMoves(g: Lcg, s: nat, j: nat, q: nat)
    requires g.Valid() && g.State(s) && j + g.Fixed() < g.bits && q % 2 == 1
    ensures Iterate(g, s, Pow2(j) * q) % Pow2(j + g.Fixed() + 1) != s % Pow2(j + g.Fixed() + 1)
  {
    hide Pow2, Iterate;
    var h := Pow2(j + g.Fixed());
    Pow2Double(j + g.Fixed());
    StrideRepeat(g, j, q, s);
    assert h * q == h + (2 * h) * (q / 2) by {
      MulDist(h, 1, 2 * (q / 2));
      MulAssoc(h, 2, q / 2);
      MulAssoc(2, h, q / 2);
    }
    ModSame(s + h * q, s + h, q / 2, 2 * h);
    HalfMoves(s, h);
  }

  lemma HalfMoves(s: nat, h: nat)
    requires h > 0
    ensures (s + h) % (2 * h) != s % (2 * h)
  {
    var r := s % (2 * h);
    ModAdd(s, h, 2 * h);
    if r < h {
      ModSmall(r + h, 2 * h);
    } else {
      ModSame(r + h, r - h, 1, 2 * h);
      ModSmall(r - h, 2 * h);
    }
  }

  lemma PeriodDivides(g: Lcg, s: nat, w: nat, q: nat)
    requires g.Valid() && g.State(s) && g.Fixed() < w <= g.bits
    ensures Iterate(g, s, Pow2(w - g.Fixed()) * q) % Pow2(w) == s % Pow2(w)
  {
    hide Pow2, Iterate, Lcg.Valid;
    var j, n, a := w - g.Fixed() - 1, Pow2(w - g.Fixed()) * q, Pow2(w) * q;
    DoubleTimes(j, q);
    DoubleTimes(w - 1, q);
    StrideTimes(g, j, 2 * q, s, n, a);
    ModAddMultiple(s, q, Pow2(w));
  }

  lemma DoubleTimes(k: nat, q: nat)
    ensures 0 <= Pow2(k + 1) * q == Pow2(k) * (2 * q)
  {
    hide Pow2;
    Pow2Double(k);
    MulAssoc(Pow2(k), 2, q);
    MulMonotone(Pow2(k + 1), 0, q);
  }

  /** The low w bits of the state repeat after exactly 2^(w - Fixed) steps and its multiples. */
  lemma LowBitsPeriod(g: Lcg, s: nat, w: nat, n: nat)
    requires g.Valid() && g.State(s) && g.Fixed() < w <= g.bits
    ensures Iterate(g, s, n) % Pow2(w) == s % Pow2(w) <==> n % Pow2(w - g.Fixed()) == 0
  {
    var period := Pow2(w - g.Fixed());
    if n % period == 0 {
      assert n == period * (n / period);
      PeriodDivides(g, s, w, n / period);
    } else {
      var j, q := OddPart(n);
      PowerBelow(n, j, q, w - g.Fixed());
      OddStrideMoves(g, s, j, q);
      ModPow2(Iterate(g, s, n), j + g.Fixed() + 1, w);
      ModPow2(s, j + g.Fixed() + 1, w);
    }
  }

  lemma PowerBelow(n: nat, j: nat, q: nat, v: nat)
    requires n == Pow2(j) * q && n % Pow2(v) != 0
    ensures j < v
  {
    if v <= j {
      Pow2Add(v, j - v);
      MulAssoc(Pow2(v), Pow2(j - v), q);
      DivModUnique(n, Pow2(v), Pow2(j - v) * q, 0);
    }
  }

  /** `period_pow2`: a state comes back after n steps exactly when 2^(bits - Fixed) divides n. */
  lemma PeriodExact(g: Lcg, s: nat, n: nat)
    requires g.Valid() && g.State(s)
    ensures Iterate(g, s, n) == s <==> n % Pow2(g.bits - g.Fixed()) == 0
  {
    LowBitsPeriod(g, s, g.bits, n);
    IterateBelow(g, s, n);
    ModSmall(s, g.Modulus());
    ModSmall(Iterate(g, s, n), g.Modulus());
  }

  /** Within one period all states are different. */
  lemma OrbitInjective(g: Lcg, s: nat, a: nat, b: nat)
    requires g.Valid() && g.State(s)
    requires a < b < Pow2(g.bits - g.Fixed())
    ensures Iterate(g, s, a) != Iterate(g, s, b)
  {
    var x := Iterate(g, s, a);
    IterateState(g, s, a);
    IterateAdd(g, s, a, b - a);
    PeriodExact(g, x, b - a);
    ModSmall(b - a, Pow2(g.bits - g.Fixed()));
  }

  // ---- distance ----

  lemma BitCompare(x: nat, y: nat, h: nat)
    requires h > 0 && x % h == y % h
    ensures (x / h) % 2 == (y / h) % 2 <==> x % (2 * h) == y % (2 * h)
    ensures (x / h) % 2 != (y / h) % 2 ==> (x + h) % (2 * h) == y % (2 * h)
  {
    var a, b, r := (x / h) % 2, (y / h) % 2, x % h;
    BitSplit(x, h);
    BitSplit(y, h);
    ModAdd(x, h, 2 * h);
    if a == 1 && b == 0 {
      ModAddMultiple(r, 1, 2 * h);
      ModSmall(r, 2 * h);
    } else if a == 0 && b == 1 {
      ModSmall(r + h, 2 * h);
    }
  }

  /** Two states that agree on k low bits agree on one more exactly when their bit k agrees. */
  lemma NextBit(x: nat, y: nat, k: nat)
    requires x % Pow2(k) == y % Pow2(k)
    ensures And(x, Pow2(k)) == And(y, Pow2(k)) <==> x % Pow2(k + 1) == y % Pow2(k + 1)
    ensures And(x, Pow2(k)) != And(y, Pow2(k)) ==> (x + Pow2(k)) % Pow2(k + 1) == y % Pow2(k + 1)
  {
    AndBit(x, k);
    AndBit(y, k);
    Pow2Double(k);
    BitCompare(x, y, Pow2(k));
    BitTimes((x / Pow2(k)) % 2, (y / Pow2(k)) % 2, Pow2(k));
  }

  lemma BitTimes(a: nat, b: nat, h: nat)
    requires a < 2 && b < 2 && h > 0
    ensures a * h == b * h <==> a == b
  {
  }

  lemma BitSplit(x: nat, h: nat)
    requires h > 0
    ensures x % (2 * h) == h * ((x / h) % 2) + x % h
  {
    DivDiv(x, h, 2);
  }

  lemma OrBit(steps: nat, j: nat, e: nat, distance: nat, bit: nat)
    requires steps < Pow2(j) && distance == steps * Pow2(e) && bit == Pow2(j + e)
    ensures Or(distance, bit) == (steps + Pow2(j)) * Pow2(e)
  {
    hide Pow2, Or;
    Pow2Add(j, e);
    ScaledBound(steps, Pow2(j), Pow2(e));
    OrTop(steps * Pow2(e), j + e);
    MulDistRight(steps, Pow2(j), Pow2(e));
  }

  lemma ScaledBound(x: nat, n: nat, c: nat)
    requires x < n && c > 0
    ensures x * c < n * c
  {
    MulMonotone(c, x + 1, n);
  }

  lemma OrTop(x: nat, k: nat)
    requires x < Pow2(k)
    ensures Or(x, Pow2(k)) == x + Pow2(k)
  {
    OrDisjoint(1, x, k);
    OrCommutes(x, Pow2(k));
  }

  lemma DoubleBit(k: nat, bits: nat, bit: nat, m: nat)
    requires k < bits && bit == Pow2(k) && m == Pow2(bits)
    ensures (bit * 2) % m == if k + 1 < bits then Pow2(k + 1) else 0
  {
    hide Pow2;
    Pow2Double(k);
    if k + 1 < bits {
      Pow2Double(k + 1);
      Pow2Monotone(k + 2, bits);
      ModSmall(Pow2(k + 1), Pow2(bits));
    } else {
      DivModUnique(Pow2(bits), Pow2(bits), 1, 0);
    }
  }

  /** After some number of steps below 2^j, the state agrees with the goal on its low j + Fixed bits. */
  ghost predicate Agreeing(g: Lcg, from: nat, cur: nat, goal: nat, j: nat, steps: nat) {
    && g.State(cur) && cur == Iterate(g, from, steps) && steps < Pow2(j)
    && cur % Pow2(j + g.Fixed()) == goal % Pow2(j + g.Fixed())
  }

  lemma DistanceStart(g: Lcg, from: nat, goal: nat)
    requires g.Valid() && g.State(from) && (g.mcg ==> from % 4 == goal % 4)
    ensures Agreeing(g, from, from, goal, 0, 0) && Pow2(g.Fixed()) == (if g.mcg then 4 else 1) && g.Fixed() < g.bits
  {
    assert Pow2(0) == 1 && Pow2(2) == 4;
  }

  /** The loop guard of distance leaves a bit to fix below the mask width. */
  lemma MaskDiffers(g: Lcg, from: nat, cur: nat, goal: nat, j: nat, steps: nat, w: nat)
    requires Agreeing(g, from, cur, goal, j, steps)
    requires And(cur, Pow2(w) - 1) != And(goal, Pow2(w) - 1)
    ensures j + g.Fixed() < w
  {
    MasksAgree(cur, goal, w);
    var k := j + g.Fixed();
    if w <= k {
      ModPow2(cur, w, k);
      ModPow2(goal, w, k);
    }
  }

  lemma RoundKeeps(g: Lcg, from: nat, cur: nat, goal: nat, j: nat, steps: nat)
    requires Agreeing(g, from, cur, goal, j, steps)
    requires And(cur, Pow2(j + g.Fixed())) == And(goal, Pow2(j + g.Fixed()))
    ensures Agreeing(g, from, cur, goal, j + 1, steps)
  {
    NextBit(cur, goal, j + g.Fixed());
    Pow2Double(j);
  }

  lemma RoundMoves(g: Lcg, from: nat, cur: nat, goal: nat, j: nat, steps: nat, moved: nat)
    requires g.Valid() && j + g.Fixed() < g.bits
    requires Agreeing(g, from, cur, goal, j, steps)
    requires And(cur, Pow2(j + g.Fixed())) != And(goal, Pow2(j + g.Fixed()))
    requires moved == Apply(g.Modulus(), Stride(g, j), cur)
    ensures steps < Pow2(j) && Agreeing(g, from, moved, goal, j + 1, steps + Pow2(j))
    ensures And(moved, Pow2(j + g.Fixed())) == And(goal, Pow2(j + g.Fixed()))
  {
    hide Pow2, And, Stride, Bump;
    NextBit(cur, goal, j + g.Fixed());
    Pow2Double(j);
    StridePerforms(g, j);
    StrideShift(g, j, cur);
    IterateAdd(g, from, steps, Pow2(j));
    IterateState(g, cur, Pow2(j));
    ModPow2(moved, j + g.Fixed(), j + g.Fixed() + 1);
    ModPow2(goal, j + g.Fixed(), j + g.Fixed() + 1);
    NextBit(moved, goal, j + g.Fixed());
  }

  /** `distance`, with a mask of the low w bits (all bits by default). The loop
      fixes one differing bit a round, so it ends within the state width, and the
      assertion inside it never fails. */
  method Distance(g: Lcg, curState: nat, newState: nat, w: nat) returns (r: nat)
    requires g.Valid() && g.State(curState) && newState < g.Modulus() && w <= g.bits
    requires g.mcg ==> curState % 4 == newState % 4
    ensures Iterate(g, curState, r) % Pow2(w) == newState % Pow2(w)
    ensures r < Pow2(if w <= g.Fixed() then 0 else w - g.Fixed())
  {
    hide Pow2, And, Or, Agreeing, Apply, Squared, Stride, Iterate, Shr, Lcg.Valid;
    var m := g.Modulus();
    var cur, step := curState, Affine(g.mult, g.inc);
    var theBit: nat := if g.mcg then 4 else 1;
    var distance: nat := 0;
    ghost var e, j: nat, steps: nat := g.Fixed(), 0, 0;
    DistanceStart(g, curState, newState);
    StrideNext(g, 0);
    while And(cur, Pow2(w) - 1) != And(newState, Pow2(w) - 1)
      invariant j + e <= g.bits && (j == 0 || j + e <= w)
      invariant theBit == if j + e < g.bits then Pow2(j + e) else 0
      invariant step == Stride(g, j)
      invariant Agreeing(g, curState, cur, newState, j, steps)
      invariant distance == steps * Pow2(e)
      decreases g.bits - j
    {
      MaskDiffers(g, curState, cur, newState, j, steps, w);
      if And(cur, theBit) != And(newState, theBit) {
        ghost var before := cur;
        cur := Apply(m, step, cur);
        RoundMoves(g, curState, before, newState, j, steps, cur);
        OrBit(steps, j, e, distance, theBit);
        distance := Or(distance, theBit);
        steps := steps + Pow2(j);
      } else {
        RoundKeeps(g, curState, cur, newState, j, steps);
      }
      assert And(cur, theBit) == And(newState, theBit);
      DoubleBit(j + e, g.bits, theBit, m);
      StrideNext(g, j);
      theBit := (theBit * 2) % m;
      step := Squared(m, step);
      j := j + 1;
    }
    MasksAgree(cur, newState, w);
    AgreedSteps(g, curState, cur, newState, j, steps, distance);
    Pow2Monotone(j, if w <= e then 0 else w - e);
    r := if g.mcg then Shr(distance, 2) else distance;
  }

  lemma AgreedSteps(g: Lcg, from: nat, cur: nat, goal: nat, j: nat, steps: nat, distance: nat)
    requires Agreeing(g, from, cur, goal, j, steps) && distance == steps * Pow2(g.Fixed())
    ensures cur == Iterate(g, from, steps) && steps < Pow2(j)
    ensures (if g.mcg then Shr(distance, 2) else distance) == steps
  {
    hide Pow2;
    Pow2Zero();
    DivModUnique(steps * Pow2(2), Pow2(2), steps, 0);
  }

  lemma MasksAgree(x: nat, y: nat, w: nat)
    ensures And(x, Pow2(w) - 1) == And(y, Pow2(w) - 1) <==> x % Pow2(w) == y % Pow2(w)
  {
    AndLowMask(x, w);
    AndLowMask(y, w);
  }

  // ---- the orbit of a state ----

  /** Every goal with the same fixed bits is reached, one bit at a time. */
  lemma {:induction false} ReachBits(g: Lcg, s: nat, goal: nat, j: nat) returns (cur: nat, n: nat)
    requires g.Valid() && g.State(s) && j + g.Fixed() <= g.bits
    requires g.mcg ==> s % 4 == goal % 4
    ensures Agreeing(g, s, cur, goal, j, n)
  {
    hide Pow2, And, Apply, Stride, Agreeing;
    if j == 0 {
      DistanceStart(g, s, goal);
      cur, n := s, 0;
    } else {
      cur, n := ReachBits(g, s, goal, j - 1);
      var bit := Pow2(j - 1 + g.Fixed());
      if And(cur, bit) == And(goal, bit) {
        RoundKeeps(g, s, cur, goal, j - 1, n);
      } else {
        var moved := Apply(g.Modulus(), Stride(g, j - 1), cur);
        RoundMoves(g, s, cur, goal, j - 1, n, moved);
        cur, n := moved, n + Pow2(j - 1);
      }
    }
  }

  /** The length `period_pow2` announces. */
  function Period(g: Lcg): nat
    requires g.Valid()
  {
    Pow2(g.bits - g.Fixed())
  }

  ghost function Orbit(g: Lcg, s: nat, n: nat): set<nat> {
    set k: nat | k < n :: Iterate(g, s, k)
  }

  /** A goal lies on the orbit exactly when it is a state word with the same fixed bits. */
  lemma OrbitIsEverything(g: Lcg, s: nat, goal: nat)
    requires g.Valid() && g.State(s)
    ensures goal in Orbit(g, s, Period(g))
       <==> goal < g.Modulus() && (g.mcg ==> goal % 4 == s % 4)
  {
    if goal in Orbit(g, s, Period(g)) {
      var k: nat :| k < Period(g) && Iterate(g, s, k) == goal;
      IterateState(g, s, k);
    }
    if goal < g.Modulus() && (g.mcg ==> goal % 4 == s % 4) {
      var cur, n := ReachBits(g, s, goal, g.bits - g.Fixed());
      ModSmall(cur, g.Modulus());
      ModSmall(goal, g.Modulus());
      assert Iterate(g, s, n) == goal;
    }
  }

  /** The first n states of an orbit are n different states, for every n up to the period. */
  lemma {:induction false} OrbitSize(g: Lcg, s: nat, n: nat)
    requires g.Valid() && g.State(s) && n <= Period(g)
    ensures |Orbit(g, s, n)| == n
  {
    hide Pow2, Iterate;
    if n == 0 {
      assert Orbit(g, s, 0) == {};
    } else {
      OrbitSize(g, s, n - 1);
      var x := Iterate(g, s, n - 1);
      assert x !in Orbit(g, s, n - 1) by {
        forall k: nat | k < n - 1
          ensures Iterate(g, s, k) != x
        {
          OrbitInjective(g, s, k, n - 1);
        }
      }
      assert Orbit(g, s, n) == Orbit(g, s, n - 1) + {x};
    }
  }

  /** `backstep`: going on by the wrapped negative undoes any number of steps. */
  lemma BackstepUndoes(g: Lcg, s: nat, delta: nat)
    requires g.Valid() && g.State(s) && delta < g.Modulus()
    ensures Iterate(g, Iterate(g, s, delta), (g.Modulus() - delta) % g.Modulus()) == s
    ensures Iterate(g, Iterate(g, s, (g.Modulus() - delta) % g.Modulus()), delta) == s
  {
    hide Iterate, Pow2;
    var m := g.Modulus();
    var back := (m - delta) % m;
    IterateAdd(g, s, delta, back);
    IterateAdd(g, s, back, delta);
    if delta == 0 {
      DivModUnique(m, m, 1, 0);
      ModSmall(0, Period(g));
    } else {
      ModSmall(m - delta, m);
      Pow2Add(g.bits - g.Fixed(), g.Fixed());
      DivModUnique(m, Period(g), Pow2(g.Fixed()), 0);
    }
    PeriodExact(g, s, delta + back);
  }
}
