/** Why the consistent hash spreads keys evenly: the baskets of the large and the
    small scheme are independent, and the smooth step between them then gives
    every basket the same chance. */
module HashBalance {
  import opened Arithmetic
  import opened Bitwise
  import opened Counting
  import opened ConsistentHashing

  // ---- independence of the two schemes ----

  /** The keys with basket l among 2^k and basket s among 2^(k-1). */
  ghost function Joint(l: nat, s: nat, k: nat, w: nat, nd: nat): set<Key>
    requires k > 0
  {
    set key | key in Keys(w, nd) && Hash2(key, k) == l && Hash2(key, k - 1) == s
  }

  ghost function JointPart(l: nat, s: nat, k: nat, w: nat, nd: nat, lo: nat, hi: nat): set<Key>
    requires k > 0
  {
    set key | key in Joint(l, s, k, w, nd) && lo <= key.c % Pow2(k - 1) < hi
  }

  /** The two schemes take their bits from different blocks: a further leading bit changes the parity. */
  lemma OtherBlock(key: Key, j: nat, k: nat)
    requires j < Pow2(k)
    ensures SelectAOrBBlock(key.a, key.b, Pow2(k) + j) == if PopCount(j) % 2 == 0 then key.b else key.a
    ensures SelectAOrBBlock(key.a, key.b, j) == if PopCount(j) % 2 == 0 then key.a else key.b
  {
    hide Pow2, PopCount;
    PopCountTop(j, k);
  }

  /** The block of c below bit k-1, for a basket s among 2^(k-1) of octave y. */
  ghost predicate Selects(s: nat, j: nat, y: nat) {
    if s == 0 then j == 0 && y == 0
    else Pow2(y) <= s < Pow2(y + 1) && Pow2(y) <= j < Pow2(y + 1)
  }

  function Offset(s: nat): nat {
    if s == 0 then 0 else s - Pow2(Log2(s))
  }

  lemma SmallScheme(key: Key, k: nat, s: nat, y: nat, j: nat)
    requires key.c % Pow2(k) == j && Selects(s, j, y)
    ensures Offset(s) < Pow2(y)
    ensures Hash2(key, k) == s <==> SelectAOrBBlock(key.a, key.b, j) % Pow2(y) == Offset(s)
  {
    hide Pow2, Hash2, Log2, PopCount;
    Hash2Form(key, k);
    Pow2Zero();
    if s > 0 {
      Log2Unique(s, y);
      Log2Unique(j, y);
      Pow2Double(y);
    }
  }

  lemma LargeScheme(key: Key, k: nat, l: nat, j: nat)
    requires k > 0 && Pow2(k - 1) <= l < Pow2(k) && key.c % Pow2(k - 1) == j
    ensures Hash2(key, k) == l
       <==> key.c % Pow2(k) == Pow2(k - 1) + j
            && SelectAOrBBlock(key.a, key.b, Pow2(k - 1) + j) % Pow2(k - 1) == l - Pow2(k - 1)
  {
    hide Pow2, Hash2, Log2, SelectAOrBBlock;
    var h := Pow2(k - 1);
    Pow2Double(k - 1);
    TopBit(key.c, h, j);
    Doubling(key, k);
    if key.c % Pow2(k) == h + j {
      UpperOctave(key, k, j);
    }
  }

  lemma UpperOctave(key: Key, k: nat, j: nat)
    requires k > 0 && key.c % Pow2(k) == Pow2(k - 1) + j && j < Pow2(k - 1)
    ensures Hash2(key, k) == Pow2(k - 1) + SelectAOrBBlock(key.a, key.b, Pow2(k - 1) + j) % Pow2(k - 1)
  {
    hide Pow2, Hash2, Log2, SelectAOrBBlock;
    Pow2Double(k - 1);
    Log2Unique(Pow2(k - 1) + j, k - 1);
    Hash2Form(key, k);
  }

  lemma TopBit(c: nat, h: nat, j: nat)
    requires h > 0 && c % h == j
    ensures (c / h) % 2 == 1 <==> c % (2 * h) == h + j
  {
    DivDiv(c, h, 2);
  }

  function JointCount(k: nat, w: nat, nd: nat, y: nat): nat
    requires 0 < k <= w && y < k
  {
    Pow2(w - (k - 1)) * Pow2(w - y) * (Pow2(w - k) * nd)
  }

  /** The values of block a, or of block b, in one slice. */
  ghost function BlockValues(first: bool, l: nat, s: nat, k: nat, w: nat, y: nat, j: nat): set<nat>
    requires k > 0 && l >= Pow2(k - 1)
  {
    if (PopCount(j) % 2 == 0) == first then Class(Pow2(w), Pow2(y), Offset(s))
    else Class(Pow2(w), Pow2(k - 1), l - Pow2(k - 1))
  }

  lemma SliceIsBox(l: nat, s: nat, k: nat, w: nat, nd: nat, y: nat, j: nat)
    requires 0 < k <= w && Pow2(k - 1) <= l < Pow2(k) && y < k && j < Pow2(k - 1) && Selects(s, j, y)
    ensures JointPart(l, s, k, w, nd, j, j + 1)
         == Box(BlockValues(true, l, s, k, w, y, j), BlockValues(false, l, s, k, w, y, j),
                Class(Pow2(w), Pow2(k), Pow2(k - 1) + j), ConsistentHashing.Below(nd))
  {
    hide Pow2, Hash2, PopCount, Selects, Offset;
    var box := Box(BlockValues(true, l, s, k, w, y, j), BlockValues(false, l, s, k, w, y, j),
                   Class(Pow2(w), Pow2(k), Pow2(k - 1) + j), ConsistentHashing.Below(nd));
    forall key | key in Keys(w, nd)
      ensures key in JointPart(l, s, k, w, nd, j, j + 1) <==> key in box
    {
      SliceMember(key, l, s, k, y, j);
    }
  }

  lemma JointSlice(l: nat, s: nat, k: nat, w: nat, nd: nat, y: nat, j: nat)
    requires 0 < k <= w && Pow2(k - 1) <= l < Pow2(k) && y < k && j < Pow2(k - 1) && Selects(s, j, y)
    ensures |JointPart(l, s, k, w, nd, j, j + 1)| == JointCount(k, w, nd, y)
  {
    hide Pow2, Hash2, PopCount, Selects, Offset, Class, Box, JointPart, ConsistentHashing.Below;
    var h := Pow2(k - 1);
    Pow2Double(k - 1);
    OffsetBelow(s, j, y);
    ClassOfPower(w, k - 1, l - h);
    ClassOfPower(w, y, Offset(s));
    ClassOfPower(w, k, h + j);
    BelowSize(nd);
    SliceIsBox(l, s, k, w, nd, y, j);
    BoxSize(BlockValues(true, l, s, k, w, y, j), BlockValues(false, l, s, k, w, y, j),
            Class(Pow2(w), Pow2(k), h + j), ConsistentHashing.Below(nd));
  }

  lemma OffsetBelow(s: nat, j: nat, y: nat)
    requires Selects(s, j, y)
    ensures Offset(s) < Pow2(y)
  {
    hide Pow2, Log2;
    Pow2Zero();
    if s > 0 {
      Log2Unique(s, y);
      Pow2Double(y);
    }
  }

  lemma SliceMember(key: Key, l: nat, s: nat, k: nat, y: nat, j: nat)
    requires k > 0 && Pow2(k - 1) <= l < Pow2(k) && j < Pow2(k - 1) && Selects(s, j, y)
    ensures Hash2(key, k) == l && Hash2(key, k - 1) == s && key.c % Pow2(k - 1) == j
       <==> key.c % Pow2(k) == Pow2(k - 1) + j
            && (if PopCount(j) % 2 == 0 then key.b else key.a) % Pow2(k - 1) == l - Pow2(k - 1)
            && (if PopCount(j) % 2 == 0 then key.a else key.b) % Pow2(y) == Offset(s)
  {
    hide Pow2, Hash2, PopCount, Selects, Offset;
    OtherBlock(key, j, k - 1);
    if key.c % Pow2(k) == Pow2(k - 1) + j {
      ModPow2(key.c, k - 1, k);
      ModAddMultiple(j, 1, Pow2(k - 1));
      ModSmall(j, Pow2(k - 1));
    }
    if key.c % Pow2(k - 1) == j {
      SmallScheme(key, k - 1, s, y, j);
      LargeScheme(key, k, l, j);
    }
  }

  lemma {:induction false} JointRange(l: nat, s: nat, k: nat, w: nat, nd: nat, y: nat, lo: nat, hi: nat)
    requires 0 < k <= w && Pow2(k - 1) <= l < Pow2(k) && y < k && lo <= hi <= Pow2(k - 1)
    requires forall j | lo <= j < hi :: Selects(s, j, y)
    ensures |JointPart(l, s, k, w, nd, lo, hi)| == (hi - lo) * JointCount(k, w, nd, y)
    decreases hi
  {
    hide Pow2, Joint, JointCount, Selects;
    if hi == lo {
      assert JointPart(l, s, k, w, nd, lo, hi) == {};
    } else {
      JointRange(l, s, k, w, nd, y, lo, hi - 1);
      JointSlice(l, s, k, w, nd, y, hi - 1);
      JointStep(l, s, k, w, nd, lo, hi);
      MulDistRight(hi - 1 - lo, 1, JointCount(k, w, nd, y));
    }
  }

  lemma JointStep(l: nat, s: nat, k: nat, w: nat, nd: nat, lo: nat, hi: nat)
    requires k > 0 && lo < hi
    ensures |JointPart(l, s, k, w, nd, lo, hi)|
         == |JointPart(l, s, k, w, nd, lo, hi - 1)| + |JointPart(l, s, k, w, nd, hi - 1, hi)|
  {
    hide Pow2, Joint;
    var head, slice := JointPart(l, s, k, w, nd, lo, hi - 1), JointPart(l, s, k, w, nd, hi - 1, hi);
    assert JointPart(l, s, k, w, nd, lo, hi) == head + slice && head !! slice;
  }

  /** The low bits of c that a basket s among 2^(k-1) comes from: 2^y consecutive values. */
  lemma LowBits(l: nat, s: nat, k: nat, w: nat, nd: nat) returns (y: nat, lo: nat, hi: nat)
    requires 0 < k <= w && s < Pow2(k - 1)
    ensures y < k && lo <= hi <= Pow2(k - 1) && hi - lo == Pow2(y)
    ensures forall j | lo <= j < hi :: Selects(s, j, y)
    ensures forall key | key in Joint(l, s, k, w, nd) :: lo <= key.c % Pow2(k - 1) < hi
  {
    hide Pow2, Hash2, Keys, Log2, Selects;
    Pow2Zero();
    y := if s == 0 then 0 else Log2(s);
    lo := if s == 0 then 0 else Pow2(y);
    hi := if s == 0 then 1 else Pow2(y + 1);
    Pow2Double(y);
    if s > 0 {
      LogBelow(s, k - 1);
      Pow2Monotone(y + 1, k - 1);
    }
    forall key | key in Joint(l, s, k, w, nd)
      ensures lo <= key.c % Pow2(k - 1) < hi
    {
      if s > 0 {
        SameRange(key, k - 1, s);
      } else {
        Hash2Form(key, k - 1);
        Hash2Range(key, k - 1);
      }
    }
    forall j | lo <= j < hi
      ensures Selects(s, j, y)
    {
      SelectsRange(s, j, y);
    }
  }

  /** Each pair of a new basket among 2^k and a basket among 2^(k-1) comes from the same
      number of keys: where a key goes and where it came from are independent. */
  lemma JointBalance(l: nat, s: nat, k: nat, w: nat, nd: nat)
    requires 0 < k <= w && Pow2(k - 1) <= l < Pow2(k) && s < Pow2(k - 1)
    ensures |Joint(l, s, k, w, nd)| == nd * Pow2(3 * w - 2 * k + 1)
  {
    hide Pow2, Joint, Selects, JointCount;
    var y, lo, hi := LowBits(l, s, k, w, nd);
    assert Joint(l, s, k, w, nd) == JointPart(l, s, k, w, nd, lo, hi);
    JointRange(l, s, k, w, nd, y, lo, hi);
    JointProduct(k, w, nd, y);
  }

  lemma SelectsRange(s: nat, j: nat, y: nat)
    requires if s == 0 then y == 0 && j == 0 else y == Log2(s) && Pow2(y) <= j < Pow2(y + 1)
    ensures Selects(s, j, y)
  {
    hide Pow2, Log2;
  }

  lemma JointProduct(k: nat, w: nat, nd: nat, y: nat)
    requires 0 < k <= w && y < k
    ensures Pow2(y) * JointCount(k, w, nd, y) == nd * Pow2(3 * w - 2 * k + 1)
  {
    hide Pow2;
    var g, u, p, v := Pow2(w - (k - 1)), Pow2(w - y), Pow2(w), Pow2(w - k);
    Pow2Add(y, w - y);
    Pow2Add(w, w - k);
    Pow2Add(w - (k - 1), 2 * w - k);
    ProductRing(Pow2(y), g, u, v, nd, p);
  }

  lemma ProductRing(x: int, g: int, u: int, v: int, nd: int, p: int)
    requires x * u == p
    ensures x * (g * u * (v * nd)) == nd * (g * (p * v))
  {
    MulAssoc(g, u, v * nd);
    MulAssoc(g, x, u * (v * nd));
    MulAssoc(x, u, v * nd);
    MulAssoc(p, v, nd);
    MulAssoc(g, p * v, nd);
    assert x * (g * (u * (v * nd))) == g * (x * (u * (v * nd))) by {
      MulAssoc(x, g, u * (v * nd));
    }
  }

  // ---- the smooth step ----

  /** The choice made for n baskets, 2^(k-1) < n <= 2^k, from the basket l of the large
      scheme, the basket of the small scheme, and a number below l * (l + 1). */
  function Pick(l: nat, number: nat, small: nat, n: nat, k: nat): nat
    requires k > 0
  {
    if l < n then l
    else
      var smooth := Shr(number, k) + Pow2(k - 1);
      if smooth < n then smooth else small
  }

  /** How many numbers the smooth step distinguishes for l. */
  function Range(l: nat): (r: nat)
    ensures l > 0 ==> r > 0
  {
    l * (l + 1)
  }

  /** The choice made for a key. */
  function PickFor(key: Key, n: nat, k: nat, w: nat): nat
    requires 0 < n && 1 <= k <= w
  {
    hide Pow2, Hash2, GetAsteriskBits, Range, Pick;
    var l := Hash2(key, k);
    Pick(l, if l < n then 0 else GetAsteriskBits(key, k, w) % Range(l), Hash2(key, k - 1), n, k)
  }

  lemma HashIsPick(key: Key, n: nat, k: nat, w: nat)
    requires Width(w) && 2 <= n <= Pow2(w - 1) && k == Log2(n - 1) + 1
    ensures k <= w && Hash(key, n, w) == Basket(PickFor(key, n, k, w))
  {
    hide Pow2, HashForPowersOf2, GetAsteriskBits, Log2;
    LogBelow(n - 1, w - 1);
  }

  ghost function Interval(a: nat, b: nat): set<nat>
    requires a <= b
  {
    Residues(a, 1, b - a, 0)
  }

  lemma IntervalSize(a: nat, b: nat)
    requires a <= b
    ensures |Interval(a, b)| == b - a
  {
    ResiduesSize(a, 1, b - a, 0);
  }

  lemma InInterval(a: nat, b: nat, x: nat)
    requires a <= b
    ensures x in Interval(a, b) <==> a <= x < b
  {
  }

  /** The numbers and small baskets that lead from l to v. */
  ghost function Ways(v: nat, l: nat, n: nat, k: nat): set<(nat, nat)>
    requires k > 0
  {
    set p | p in Pairs(Interval(0, Range(l)), Interval(0, Pow2(k - 1))) && Pick(l, p.0, p.1, n, k) == v
  }

  ghost predicate Between(n: nat, k: nat) {
    k > 0 && Pow2(k - 1) < n <= Pow2(k)
  }

  /** The numbers that reach the new baskets below n all occur. */
  lemma Room(n: nat, k: nat, l: nat)
    requires Between(n, k) && n <= l < Pow2(k)
    ensures 0 <= (n - Pow2(k - 1)) * Pow2(k) <= Range(l)
  {
    hide Pow2;
    Pow2Double(k - 1);
    RoomFor(Pow2(k - 1), n - Pow2(k - 1), l - Pow2(k - 1));
  }

  lemma RoomFor(h: nat, q: nat, e: nat)
    requires q <= e
    ensures 0 <= q * (2 * h) <= Range(e + h)
  {
    MulMonotone(2 * h, q, e);
    MulMonotone(2 * h, 0, q);
    SquareOfSum(e, h);
    MulDist(e + h, e + h, 1);
  }

  lemma SquareOfSum(e: nat, h: nat)
    ensures (e + h) * (e + h) >= e * (2 * h)
  {
    MulDist(e + h, e, h);
    MulDistRight(e, h, e);
    MulDistRight(e, h, h);
    MulDist(e, h, h);
    MulMonotone(e, 0, e);
    MulMonotone(h, 0, h);
  }

  lemma WaysAre(v: nat, l: nat, n: nat, k: nat, numbers: set<nat>, smalls: set<nat>)
    requires Between(n, k)
    requires numbers <= Interval(0, Range(l)) && smalls <= Interval(0, Pow2(k - 1))
    requires forall x, small | x in Interval(0, Range(l)) && small in Interval(0, Pow2(k - 1)) ::
               Pick(l, x, small, n, k) == v <==> x in numbers && small in smalls
    ensures |Ways(v, l, n, k)| == |numbers| * |smalls|
  {
    hide Pow2, Interval, Pick, Range;
    assert Ways(v, l, n, k) == Pairs(numbers, smalls);
    PairsSize(numbers, smalls);
  }

  /** The numbers that lead to a new basket. */
  lemma NewNumbers(v: nat, n: nat, k: nat, l: nat) returns (lo: nat)
    requires Between(n, k) && n <= l < Pow2(k) && Pow2(k - 1) <= v < n
    ensures lo == Pow2(k) * (v - Pow2(k - 1)) && lo + Pow2(k) <= Range(l)
  {
    hide Pow2, Range;
    var h, q := Pow2(k - 1), v - Pow2(k - 1);
    Room(n, k, l);
    MulMonotone(Pow2(k), q + 1, n - h);
    MulDist(Pow2(k), q, 1);
    MulMonotone(Pow2(k), 0, q);
    lo := Pow2(k) * q;
  }

  lemma WaysToNew(v: nat, l: nat, n: nat, k: nat)
    requires Between(n, k) && n <= l < Pow2(k) && Pow2(k - 1) <= v < n
    ensures |Ways(v, l, n, k)| == Pow2(k) * Pow2(k - 1)
  {
    hide Pow2, Pick, Interval, Ways, Shr, Range;
    var lo := NewNumbers(v, n, k, l);
    var hi := lo + Pow2(k);
    var numbers, smalls := Interval(lo, hi), Interval(0, Pow2(k - 1));
    forall x: nat
      ensures x in numbers ==> x in Interval(0, Range(l))
    {
      InInterval(lo, hi, x);
      InInterval(0, Range(l), x);
    }
    forall x, small | x in Interval(0, Range(l)) && small in smalls
      ensures Pick(l, x, small, n, k) == v <==> x in numbers
    {
      QuotientIs(x, k, v - Pow2(k - 1));
      InInterval(lo, hi, x);
      InInterval(0, Pow2(k - 1), small);
      SmallDiffers(v, l, x, small, n, k);
    }
    IntervalSize(lo, hi);
    IntervalSize(0, Pow2(k - 1));
    WaysAre(v, l, n, k, numbers, smalls);
  }

  /** A small basket is never a new one. */
  lemma SmallDiffers(v: nat, l: nat, x: nat, small: nat, n: nat, k: nat)
    requires Between(n, k) && n <= l && small < Pow2(k - 1)
    ensures v >= Pow2(k - 1) ==> (Pick(l, x, small, n, k) == v <==> Shr(x, k) + Pow2(k - 1) == v && v < n)
    ensures v < Pow2(k - 1) ==> (Pick(l, x, small, n, k) == v <==> Shr(x, k) + Pow2(k - 1) >= n && small == v)
  {
    hide Pow2, Shr;
  }

  lemma QuotientIs(x: nat, k: nat, q: nat)
    ensures Shr(x, k) == q <==> Pow2(k) * q <= x < Pow2(k) * q + Pow2(k)
    ensures Shr(x, k) >= q <==> Pow2(k) * q <= x
  {
    hide Pow2;
    var d, y := Pow2(k), Shr(x, k);
    if d * q <= x < d * q + d {
      DivModUnique(x, d, q, x - d * q);
    }
    if y >= q {
      MulMonotone(d, q, y);
    } else {
      MulMonotone(d, y + 1, q);
      MulDist(d, y, 1);
    }
  }

  lemma WaysToOld(v: nat, l: nat, n: nat, k: nat)
    requires Between(n, k) && n <= l < Pow2(k) && v < Pow2(k - 1)
    ensures |Ways(v, l, n, k)| == Range(l) - (n - Pow2(k - 1)) * Pow2(k)
  {
    hide Pow2, Pick, Interval, Ways, Shr, Range;
    var h, q := Pow2(k - 1), n - Pow2(k - 1);
    var lo, all := Pow2(k) * q, Range(l);
    Room(n, k, l);
    var numbers, smalls := Interval(lo, all), {v};
    forall x: nat
      ensures x in numbers ==> x in Interval(0, all)
    {
      InInterval(lo, all, x);
      InInterval(0, all, x);
    }
    InInterval(0, h, v);
    forall x, small | x in Interval(0, all) && small in Interval(0, h)
      ensures Pick(l, x, small, n, k) == v <==> x in numbers && small in smalls
    {
      QuotientIs(x, k, q);
      InInterval(lo, all, x);
      InInterval(0, all, x);
      InInterval(0, h, small);
      SmallDiffers(v, l, x, small, n, k);
    }
    IntervalSize(lo, all);
    WaysAre(v, l, n, k, numbers, smalls);
  }

  // ---- equal chances ----

  /** The chance of basket v when the large scheme gives l, the number is uniform below
      l * (l + 1) and the small basket uniform among 2^(k-1). */
  ghost function Given(v: nat, l: nat, n: nat, k: nat): real
    requires Between(n, k)
  {
    if l < n then (if l == v then 1.0 else 0.0)
    else Share(|Ways(v, l, n, k)| as real, l as real, Pow2(k - 1) as real)
  }

  /** The part that some of the numbers and small baskets make up of all. */
  ghost function Share(ways: real, l: real, smalls: real): real
    requires l > 0.0 && smalls > 0.0
  {
    ways / (l * (l + 1.0) * smalls)
  }

  ghost function Total(v: nat, n: nat, k: nat, m: nat): real
    requires Between(n, k)
  {
    if m == 0 then 0.0 else Total(v, n, k, m - 1) + Given(v, m - 1, n, k)
  }

  /** The chance of basket v among n, the basket of the large scheme being uniform among 2^k. */
  ghost function Chance(v: nat, n: nat, k: nat): real
    requires Between(n, k)
  {
    Total(v, n, k, Pow2(k)) / (Pow2(k) as real)
  }

  lemma {:induction false} RealProduct(a: nat, b: int)
    ensures (a * b) as real == (a as real) * (b as real)
  {
    if a > 0 {
      RealProduct(a - 1, b);
      MulDistRight(a - 1, 1, b);
      assert (a * b) as real == ((a - 1) * b) as real + b as real;
    }
  }

  lemma {:induction false} TotalBelow(v: nat, n: nat, k: nat, m: nat)
    requires Between(n, k) && v < n && m <= n
    ensures Total(v, n, k, m) == if v < m then 1.0 else 0.0
  {
    if m > 0 {
      TotalBelow(v, n, k, m - 1);
    }
  }

  lemma Telescope(x: real, c: real, h: real, ways: real)
    requires x > 0.0 && h > 0.0 && ways == c * h
    ensures Share(ways, x, h) == c * (1.0 / x - 1.0 / (x + 1.0))
  {
    Cancel(c, x * (x + 1.0), h);
    Difference(x);
    assert c / (x * (x + 1.0)) == c * (1.0 / (x * (x + 1.0)));
  }

  lemma Cancel(c: real, y: real, h: real)
    requires y > 0.0 && h > 0.0
    ensures (c * h) / (y * h) == c / y
  {
    var q := c / y;
    assert q * y == c;
    assert q * (y * h) == c * h;
  }

  lemma Difference(x: real)
    requires x > 0.0
    ensures 1.0 / x - 1.0 / (x + 1.0) == 1.0 / (x * (x + 1.0))
  {
    var a, b := 1.0 / x, 1.0 / (x + 1.0);
    assert a * x == 1.0 && b * (x + 1.0) == 1.0;
    assert (a - b) * (x * (x + 1.0)) == 1.0;
  }

  /** What one basket l of the large scheme, too large for n, contributes to a new basket. */
  lemma GivenNew(v: nat, l: nat, n: nat, k: nat)
    requires Between(n, k) && n <= l < Pow2(k) && Pow2(k - 1) <= v < n
    ensures Given(v, l, n, k) == (Pow2(k) as real) * (1.0 / (l as real) - 1.0 / (l as real + 1.0))
  {
    hide Pow2, Ways, Share;
    WaysToNew(v, l, n, k);
    RealProduct(Pow2(k), Pow2(k - 1));
    Telescope(l as real, Pow2(k) as real, Pow2(k - 1) as real, |Ways(v, l, n, k)| as real);
  }

  ghost function Reciprocal(m: nat): real
    requires m > 0
  {
    1.0 / (m as real)
  }

  /** How many numbers lead to new baskets. */
  ghost function NewNumberCount(n: nat, k: nat): real
    requires Between(n, k)
  {
    (n - Pow2(k - 1)) as real * (Pow2(k) as real)
  }

  ghost function Slope(n: nat, k: nat): real
    requires Between(n, k)
  {
    NewNumberCount(n, k) / (Pow2(k - 1) as real)
  }

  ghost function OldPart(h: real, c: real, b: real, d: real): real {
    h - c * (b - d)
  }

  /** And to an old one. */
  lemma GivenOld(v: nat, l: nat, n: nat, k: nat)
    requires Between(n, k) && n <= l < Pow2(k) && v < Pow2(k - 1)
    ensures Given(v, l, n, k) == OldPart(Reciprocal(Pow2(k - 1)), Slope(n, k), Reciprocal(l), Reciprocal(l + 1))
  {
    hide Pow2, Ways, Share, NewNumberCount;
    RealWays(v, l, n, k);
    FairShare(l as real, Pow2(k - 1) as real, NewNumberCount(n, k), |Ways(v, l, n, k)| as real);
    assert (l + 1) as real == l as real + 1.0;
  }

  lemma FairShare(x: real, h: real, c: real, ways: real)
    requires x > 0.0 && h > 0.0 && ways == x * (x + 1.0) - c
    ensures Share(ways, x, h) == 1.0 / h - (c / h) * (1.0 / x - 1.0 / (x + 1.0))
  {
    Difference(x);
    Remainder(x * (x + 1.0), c, h);
  }

  lemma RealWays(v: nat, l: nat, n: nat, k: nat)
    requires Between(n, k) && n <= l < Pow2(k) && v < Pow2(k - 1)
    ensures |Ways(v, l, n, k)| as real
         == (l as real) * (l as real + 1.0) - NewNumberCount(n, k)
  {
    hide Pow2, Ways;
    WaysToOld(v, l, n, k);
    RealProduct(n - Pow2(k - 1), Pow2(k));
    RealProduct(l, l + 1);
  }

  lemma Remainder(y: real, c: real, h: real)
    requires y > 0.0 && h > 0.0
    ensures (y - c) / (y * h) == 1.0 / h - (c / h) * (1.0 / y)
  {
    var a, b, d := 1.0 / h, 1.0 / y, c / h;
    assert a * h == 1.0 && b * y == 1.0 && d * h == c;
    assert (a - d * b) * (y * h) == (a * h) * y - (d * h) * (b * y);
  }

  /** Closed forms of the partial sums. */
  lemma {:induction false} TotalNew(v: nat, n: nat, k: nat, m: nat)
    requires Between(n, k) && Pow2(k - 1) <= v < n <= m <= Pow2(k)
    ensures Total(v, n, k, m) == 1.0 + (Pow2(k) as real) * (1.0 / (n as real) - 1.0 / (m as real))
    decreases m
  {
    hide Pow2, Given;
    if m == n {
      TotalBelow(v, n, k, n);
    } else {
      TotalNew(v, n, k, m - 1);
      GivenNew(v, m - 1, n, k);
      assert (m - 1) as real + 1.0 == m as real;
      AddDifferences(Pow2(k) as real, 1.0 / (n as real), 1.0 / ((m - 1) as real), 1.0 / (m as real));
    }
  }

  lemma AddDifferences(c: real, a: real, b: real, d: real)
    ensures c * (a - b) + c * (b - d) == c * (a - d)
  {
  }

  /** One for v itself, and a telescoping sum for the large baskets from n on. */
  ghost function OldSum(count: nat, h: real, c: real, a: real, b: real): real {
    1.0 + count as real * h - c * (a - b)
  }

  lemma OldSumNone(h: real, c: real, a: real)
    ensures OldSum(0, h, c, a, a) == 1.0
  {
  }

  lemma OldSumNext(count: nat, h: real, c: real, a: real, b: real, d: real)
    ensures OldSum(count, h, c, a, b) + OldPart(h, c, b, d) == OldSum(count + 1, h, c, a, d)
  {
    var x := count as real;
    assert (count + 1) as real == x + 1.0;
    assert (x + 1.0) * h == x * h + h;
    AddDifferences(c, a, b, d);
  }

  lemma {:induction false} TotalOld(v: nat, n: nat, k: nat, m: nat)
    requires Between(n, k) && v < Pow2(k - 1) && n <= m <= Pow2(k)
    ensures Total(v, n, k, m) == OldSum(m - n, Reciprocal(Pow2(k - 1)), Slope(n, k), Reciprocal(n), Reciprocal(m))
    decreases m
  {
    hide Pow2, Given, Reciprocal, Slope, OldSum, OldPart;
    var h, c, a := Reciprocal(Pow2(k - 1)), Slope(n, k), Reciprocal(n);
    if m == n {
      TotalBelow(v, n, k, n);
      OldSumNone(h, c, a);
    } else {
      TotalOld(v, n, k, m - 1);
      GivenOld(v, m - 1, n, k);
      OldSumNext(m - 1 - n, h, c, a, Reciprocal(m - 1), Reciprocal(m));
    }
  }

  /** Every basket has the chance 1 / n, for every n: the smooth step is exactly fair. */
  lemma EqualChances(v: nat, n: nat, k: nat)
    requires Between(n, k) && v < n
    ensures Chance(v, n, k) == 1.0 / (n as real)
  {
    hide Pow2, Total;
    var x, h := n as real, Pow2(k - 1) as real;
    Pow2Double(k - 1);
    assert Pow2(k) as real == 2.0 * h;
    if v >= Pow2(k - 1) {
      TotalNew(v, n, k, Pow2(k));
      SumNew(x, 2.0 * h);
    } else {
      TotalOld(v, n, k, Pow2(k));
      SumOld(x, h);
    }
  }

  lemma SumNew(x: real, c: real)
    requires x > 0.0 && c > 0.0
    ensures (1.0 + c * (1.0 / x - 1.0 / c)) / c == 1.0 / x
  {
    var a, b := 1.0 / x, 1.0 / c;
    assert b * c == 1.0;
    assert 1.0 + c * (a - b) == c * a;
  }

  lemma SumOld(x: real, h: real)
    requires x > 0.0 && h > 0.0
    ensures (1.0 + (2.0 * h - x) * (1.0 / h) - ((x - h) * (2.0 * h) / h) * (1.0 / x - 1.0 / (2.0 * h))) / (2.0 * h)
         == 1.0 / x
  {
    var a, b := 1.0 / x, 1.0 / h;
    assert a * x == 1.0 && b * h == 1.0;
    assert (x - h) * (2.0 * h) / h == 2.0 * (x - h);
    assert 1.0 / (2.0 * h) == b / 2.0;
    assert 1.0 + (2.0 * h - x) * b - 2.0 * (x - h) * (a - b / 2.0) == 2.0 * h * a;
  }
}
