/** The constant-time consistent hash. A key is four blocks of w bits, w being 16
    or 32; baskets are numbered from 0. */
module ConsistentHashing {
  import opened Arithmetic
  import opened Bitwise
  import opened Counting

  datatype Key = Key(a: nat, b: nat, c: nat, d: nat)

  predicate Width(w: nat) {
    w == 16 || w == 32
  }

  predicate InWidth(key: Key, w: nat) {
    key.a < Pow2(w) && key.b < Pow2(w) && key.c < Pow2(w) && key.d < Pow2(w)
  }

  datatype Outcome = Basket(id: nat) | NoBaskets

  // ---- the function ----

  function PopCount(x: nat): nat {
    if x == 0 then 0 else x % 2 + PopCount(x / 2)
  }

  function GetValueBitCount(x: nat): nat
    requires x > 0
  {
    Log2(x) + 1
  }

  /** `SelectAOrBBlock` */
  function SelectAOrBBlock(a: nat, b: nat, cBlock: nat): nat {
    if PopCount(cBlock) % 2 == 0 then a else b
  }

  /** `ConsistentHashingForPowersOf2`, for k2 baskets. */
  function HashForPowersOf2(a: nat, b: nat, c: nat, k2: nat): nat
    requires k2 > 0
  {
    var cBlock := And(c, k2 - 1);
    if cBlock < 2 then cBlock
    else
      var y2 := Pow2(GetValueBitCount(cBlock) - 1);
      y2 + And(SelectAOrBBlock(a, b, cBlock), y2 - 1)
  }

  /** `GetAsteriskBits`: a 16-bit block is widened before its shift, a 32-bit one
      loses its top bits; the rest is 64-bit arithmetic. */
  function GetAsteriskBits(key: Key, k: nat, w: nat): nat
    requires 1 <= k <= w
  {
    var shift := w - k;
    var res := Or(Shl(key.d, shift, 32), Shr(key.c, k));
    var res := Or(Shl(res, shift + 1, 64), Shr(key.b, k - 1));
    Or(Shl(res, shift + 1, 64), Shr(key.a, k - 1))
  }

  /** The basket tried when the large scheme gives none: at least half of the power of two. */
  function SmoothValue(key: Key, k: nat, largeValue: nat, w: nat): (v: nat)
    requires 1 <= k <= w && largeValue > 0
    ensures v >= Pow2(k - 1)
  {
    hide Pow2;
    var s: nat := GetAsteriskBits(key, k, w) % (largeValue * (largeValue + 1));
    DivNonneg(s, Pow2(k));
    s / Pow2(k) + Pow2(k - 1)
  }

  /** `ConsistentHashingImpl`; the header promises it for n up to 2^(w-1). */
  function Hash(key: Key, n: nat, w: nat): Outcome
    requires Width(w) && n <= Pow2(w - 1)
  {
    if n == 0 then NoBaskets
    else if n == 1 then Basket(0)
    else
      LogBelow(n - 1, w - 1);
      var k := GetValueBitCount(n - 1);
      var largeValue := HashForPowersOf2(key.a, key.b, key.c, Pow2(k));
      if largeValue < n then Basket(largeValue)
      else
        var largeValue2 := SmoothValue(key, k, largeValue, w);
        if largeValue2 < n then Basket(largeValue2)
        else Basket(HashForPowersOf2(key.a, key.b, key.c, Pow2(k - 1)))
  }

  // ---- the scheme for powers of two ----

  /** The basket of a key among 2^k. */
  function Hash2(key: Key, k: nat): nat {
    HashForPowersOf2(key.a, key.b, key.c, Pow2(k))
  }

  /** The low k bits of c decide the range of the basket, the selected block its place there. */
  lemma Hash2Form(key: Key, k: nat)
    ensures key.c % Pow2(k) == 0 ==> Hash2(key, k) == 0
    ensures key.c % Pow2(k) > 0 ==>
              var y := Pow2(Log2(key.c % Pow2(k)));
              Hash2(key, k) == y + SelectAOrBBlock(key.a, key.b, key.c % Pow2(k)) % y
  {
    hide Pow2, And, PopCount, Log2;
    var j := key.c % Pow2(k);
    AndLowMask(key.c, k);
    if j > 0 {
      AndLowMask(SelectAOrBBlock(key.a, key.b, j), Log2(j));
      if j == 1 {
        Pow2Zero();
        Pow2Double(0);
        Log2Unique(1, 0);
      }
    }
  }

  // ---- the block that is read ----

  /** The bits of x set below bit k. */
  ghost function Ones(x: nat, k: nat): set<nat> {
    set i: nat | i < k && BitAt(x, i) == 1
  }

  /** A further leading bit changes the parity of the bit count. */
  lemma {:induction false} PopCountTop(j: nat, k: nat)
    requires j < Pow2(k)
    ensures PopCount(Pow2(k) + j) == PopCount(j) + 1
    decreases k
  {
    if k == 0 {
      assert PopCount(1) == 1 + PopCount(0);
    } else {
      var h := Pow2(k - 1);
      assert (2 * h + j) / 2 == h + j / 2 && (2 * h + j) % 2 == j % 2;
      PopCountTop(j / 2, k - 1);
    }
  }

  lemma {:induction false} PopCountIsOnes(x: nat, k: nat)
    ensures PopCount(x % Pow2(k)) == |Ones(x, k)|
  {
    hide Pow2, PopCount, BitAt, Ones;
    if k == 0 {
      NoBits(x);
      NoOnes(x);
    } else {
      PopCountIsOnes(x, k - 1);
      PopCountNext(x, k - 1);
      OnesNext(x, k - 1);
    }
  }

  lemma PopCountNext(x: nat, k: nat)
    ensures PopCount(x % Pow2(k + 1)) == PopCount(x % Pow2(k)) + if BitAt(x, k) == 1 then 1 else 0
  {
    hide Pow2, PopCount, BitAt;
    LastBit(x, k);
    PopCountTop(x % Pow2(k), k);
  }

  lemma OnesNext(x: nat, k: nat)
    ensures |Ones(x, k + 1)| == |Ones(x, k)| + if BitAt(x, k) == 1 then 1 else 0
  {
    hide BitAt;
    var rest := Ones(x, k);
    assert Ones(x, k + 1) == if BitAt(x, k) == 1 then rest + {k} else rest;
  }

  lemma NoOnes(x: nat)
    ensures |Ones(x, 0)| == 0
  {
    assert Ones(x, 0) == {};
  }

  lemma NoBits(x: nat)
    ensures PopCount(x % Pow2(0)) == 0
  {
    Pow2Zero();
    DivModUnique(x, 1, x, 0);
  }

  lemma LastBit(x: nat, k: nat)
    ensures BitAt(x, k) == 0 || BitAt(x, k) == 1
    ensures x % Pow2(k + 1) == (if BitAt(x, k) == 1 then Pow2(k) else 0) + x % Pow2(k)
  {
    hide Pow2;
    Pow2Double(k);
    DivDiv(x, Pow2(k), 2);
  }

  /** The octave of the basket is that of the low k bits of c. Its place there is read from block a
      when an even number of those bits is set, from block b otherwise. */
  lemma Hash2Value(key: Key, k: nat, y: nat)
    ensures key.c % Pow2(k) == 0 ==> Hash2(key, k) == 0
    ensures Pow2(y) <= key.c % Pow2(k) < Pow2(y + 1) ==>
              Hash2(key, k) == Pow2(y) + (if |Ones(key.c, k)| % 2 == 0 then key.a else key.b) % Pow2(y)
  {
    hide Pow2, Hash2, PopCount, Log2, Ones;
    Hash2Form(key, k);
    PopCountIsOnes(key.c, k);
    if Pow2(y) <= key.c % Pow2(k) < Pow2(y + 1) {
      Log2Unique(key.c % Pow2(k), y);
    }
  }

  lemma Hash2Range(key: Key, k: nat)
    ensures Hash2(key, k) < Pow2(k)
    ensures key.c % Pow2(k) > 0 ==>
              Pow2(Log2(key.c % Pow2(k))) <= Hash2(key, k) < Pow2(Log2(key.c % Pow2(k)) + 1)
  {
    hide Pow2, Hash2, PopCount, Log2;
    Hash2Form(key, k);
    var j := key.c % Pow2(k);
    if j > 0 {
      LogBelow(j, k);
      Pow2Double(Log2(j));
      Pow2Monotone(Log2(j) + 1, k);
    }
  }

  /** Doubling the baskets moves a key exactly when the new bit of c is set, and
      then into the new half. */
  lemma Doubling(key: Key, k: nat)
    requires k > 0
    ensures Hash2(key, k) != Hash2(key, k - 1) <==> (key.c / Pow2(k - 1)) % 2 == 1
    ensures Hash2(key, k) != Hash2(key, k - 1) <==> Hash2(key, k) >= Pow2(k - 1)
  {
    hide Pow2, Hash2, PopCount, Log2;
    var h := Pow2(k - 1);
    Pow2Double(k - 1);
    Hash2Range(key, k - 1);
    Hash2Range(key, k);
    NewBit(key.c, h);
    if (key.c / h) % 2 == 1 {
      Log2Unique(key.c % (2 * h), k - 1);
    } else {
      Hash2Form(key, k - 1);
      Hash2Form(key, k);
    }
  }

  lemma NewBit(c: nat, h: nat)
    requires h > 0
    ensures (c / h) % 2 == 1 ==> h <= c % (2 * h) < 2 * h
    ensures (c / h) % 2 == 0 ==> c % (2 * h) == c % h
  {
    DivDiv(c, h, 2);
  }

  // ---- monotonicity ----

  /** The basket of a key that exists for every positive n. */
  lemma HashBelow(key: Key, n: nat, w: nat)
    requires Width(w) && 1 <= n <= Pow2(w - 1)
    ensures Hash(key, n, w).Basket? && Hash(key, n, w).id < n
  {
    hide Pow2, HashForPowersOf2, SmoothValue, Log2;
    if n > 1 {
      var k := GetValueBitCount(n - 1);
      LogBelow(n - 1, w - 1);
      Hash2Range(key, k - 1);
    }
  }

  /** With 2^k baskets the large scheme always succeeds. */
  lemma HashAtPower(key: Key, k: nat, w: nat)
    requires Width(w) && k < w
    ensures Pow2(k) <= Pow2(w - 1)
    ensures Hash(key, Pow2(k), w) == Basket(Hash2(key, k))
  {
    hide Pow2, HashForPowersOf2, SmoothValue, Log2;
    Pow2Monotone(k, w - 1);
    Hash2Range(key, k);
    Pow2Zero();
    if k > 0 {
      Pow2Double(k - 1);
      Pow2Monotone(0, k - 1);
      Log2Unique(Pow2(k) - 1, k - 1);
    }
  }

  /** Growing from n1 to n2 leaves a key or moves it to a new basket. */
  ghost predicate Consistent(key: Key, n1: nat, n2: nat, w: nat)
    requires Width(w) && 1 <= n1 <= n2 <= Pow2(w - 1)
  {
    Hash(key, n2, w) == Hash(key, n1, w) || Hash(key, n2, w).id >= n1
  }

  lemma WithinBlock(key: Key, n1: nat, n2: nat, w: nat)
    requires Width(w) && 2 <= n1 <= n2 <= Pow2(w - 1) && Log2(n1 - 1) == Log2(n2 - 1)
    ensures Consistent(key, n1, n2, w)
  {
    hide Pow2, HashForPowersOf2, SmoothValue, Log2;
    LogBelow(n2 - 1, w - 1);
  }

  lemma AcrossPower(key: Key, k: nat, n: nat, w: nat)
    requires Width(w) && Pow2(k) < n <= Pow2(k + 1) && k + 1 < w
    ensures n <= Pow2(w - 1)
    ensures Consistent(key, Pow2(k), n, w)
  {
    hide Pow2, HashForPowersOf2, SmoothValue, Log2;
    Pow2Monotone(k + 1, w - 1);
    Log2Unique(n - 1, k);
    HashAtPower(key, k, w);
    Doubling(key, k + 1);
  }

  lemma {:induction false} BeyondPower(key: Key, k: nat, n: nat, w: nat)
    requires Width(w) && Pow2(k) <= n <= Pow2(w - 1)
    ensures Consistent(key, Pow2(k), n, w)
    decreases w - k
  {
    hide Pow2, Hash, Log2;
    if w <= k + 1 {
      Pow2Monotone(w - 1, k);
    } else if Pow2(k + 1) <= n {
      Pow2Monotone(k + 1, w - 1);
      Pow2Double(k);
      AcrossPower(key, k, Pow2(k + 1), w);
      BeyondPower(key, k + 1, n, w);
    } else if Pow2(k) < n {
      AcrossPower(key, k, n, w);
    }
  }

  /** Monotonicity over the whole supported range, and exactly which keys move. */
  lemma Monotone(key: Key, n1: nat, n2: nat, w: nat)
    requires Width(w) && 1 <= n1 <= n2 <= Pow2(w - 1)
    ensures Consistent(key, n1, n2, w)
    ensures Hash(key, n2, w) != Hash(key, n1, w) <==> Hash(key, n2, w).id >= n1
  {
    hide Pow2, Hash, Log2;
    HashBelow(key, n1, w);
    HashBelow(key, n2, w);
    Pow2Zero();
    if n1 == 1 {
      BeyondPower(key, 0, n2, w);
    } else {
      var k := Log2(n1 - 1) + 1;
      Pow2Double(k - 1);
      LogBelow(n1 - 1, w - 1);
      Pow2Monotone(k, w - 1);
      if n2 <= Pow2(k) {
        Log2Unique(n2 - 1, k - 1);
        WithinBlock(key, n1, n2, w);
      } else {
        Log2Unique(Pow2(k) - 1, k - 1);
        WithinBlock(key, n1, Pow2(k), w);
        BeyondPower(key, k, n2, w);
      }
    }
  }

  // ---- balance ----

  ghost function Below(n: nat): set<nat> {
    Class(n, 1, 0)
  }

  ghost function Box(a: set<nat>, b: set<nat>, c: set<nat>, d: set<nat>): set<Key> {
    set x, y, z, t | x in a && y in b && z in c && t in d :: Key(x, y, z, t)
  }

  lemma BoxSize(a: set<nat>, b: set<nat>, c: set<nat>, d: set<nat>)
    ensures |Box(a, b, c, d)| == |a| * |b| * (|c| * |d|)
  {
    var ab, cd := Pairs(a, b), Pairs(c, d);
    PairsSize(a, b);
    PairsSize(c, d);
    PairsSize(ab, cd);
    var f := (p: ((nat, nat), (nat, nat))) => Key(p.0.0, p.0.1, p.1.0, p.1.1);
    forall key | key in Box(a, b, c, d)
      ensures exists p :: p in Pairs(ab, cd) && f(p) == key
    {
      var p := ((key.a, key.b), (key.c, key.d));
      assert p.0 in ab && p.1 in cd && f(p) == key;
    }
    SameSize(Pairs(ab, cd), Box(a, b, c, d), f);
  }

  /** All keys with a, b and c of w bits and d below nd. */
  ghost function Keys(w: nat, nd: nat): set<Key> {
    Box(Below(Pow2(w)), Below(Pow2(w)), Below(Pow2(w)), Below(nd))
  }

  ghost function Basket2(i: nat, k: nat, w: nat, nd: nat): set<Key> {
    set key | key in Keys(w, nd) && Hash2(key, k) == i
  }

  /** The keys of basket i whose low block of c lies between lo and hi. */
  ghost function Part(i: nat, k: nat, w: nat, nd: nat, lo: nat, hi: nat): set<Key> {
    set key | key in Keys(w, nd) && Hash2(key, k) == i && lo <= key.c % Pow2(k) < hi
  }

  lemma BelowSize(n: nat)
    ensures |Below(n)| == n
  {
    ClassSize(1, n, 0);
  }

  lemma ClassOfPower(w: nat, y: nat, r: nat)
    requires y <= w && r < Pow2(y)
    ensures |Class(Pow2(w), Pow2(y), r)| == Pow2(w - y)
  {
    hide Pow2;
    Pow2Add(y, w - y);
    ClassSize(Pow2(y), Pow2(w - y), r);
  }

  function SliceCount(k: nat, w: nat, nd: nat, y: nat): nat
    requires y <= w && k <= w
  {
    Pow2(w - y) * Pow2(w) * (Pow2(w - k) * nd)
  }

  lemma SliceSize(i: nat, k: nat, w: nat, nd: nat, y: nat, j: nat)
    requires y < k <= w && Pow2(y) <= i < Pow2(y + 1) && Pow2(y) <= j < Pow2(y + 1)
    ensures |Part(i, k, w, nd, j, j + 1)| == SliceCount(k, w, nd, y)
  {
    hide Pow2, Hash2, Log2, PopCount;
    var r := i - Pow2(y);
    Pow2Double(y);
    Pow2Monotone(y + 1, k);
    var all, some := Below(Pow2(w)), Class(Pow2(w), Pow2(y), r);
    var a, b := if PopCount(j) % 2 == 0 then some else all, if PopCount(j) % 2 == 0 then all else some;
    var c := Class(Pow2(w), Pow2(k), j);
    ClassOfPower(w, y, r);
    ClassOfPower(w, k, j);
    BelowSize(Pow2(w));
    BelowSize(nd);
    forall key | key in Keys(w, nd)
      ensures key in Part(i, k, w, nd, j, j + 1) <==> key in Box(a, b, c, Below(nd))
    {
      Hash2Form(key, k);
      Log2Unique(j, y);
    }
    assert Part(i, k, w, nd, j, j + 1) == Box(a, b, c, Below(nd));
    BoxSize(a, b, c, Below(nd));
  }

  lemma {:induction false} PartSize(i: nat, k: nat, w: nat, nd: nat, y: nat, hi: nat)
    requires y < k <= w && Pow2(y) <= i < Pow2(y + 1) && Pow2(y) <= hi <= Pow2(y + 1)
    ensures |Part(i, k, w, nd, Pow2(y), hi)| == (hi - Pow2(y)) * SliceCount(k, w, nd, y)
    decreases hi
  {
    hide Pow2, Hash2, Keys, SliceCount;
    var lo := Pow2(y);
    if hi == lo {
      assert Part(i, k, w, nd, lo, hi) == {};
    } else {
      PartSize(i, k, w, nd, y, hi - 1);
      SliceSize(i, k, w, nd, y, hi - 1);
      PartStep(i, k, w, nd, lo, hi);
      MulDistRight(hi - 1 - lo, 1, SliceCount(k, w, nd, y));
    }
  }

  lemma PartStep(i: nat, k: nat, w: nat, nd: nat, lo: nat, hi: nat)
    requires lo < hi
    ensures |Part(i, k, w, nd, lo, hi)| == |Part(i, k, w, nd, lo, hi - 1)| + |Part(i, k, w, nd, hi - 1, hi)|
  {
    hide Pow2, Hash2, Keys;
    var head, slice := Part(i, k, w, nd, lo, hi - 1), Part(i, k, w, nd, hi - 1, hi);
    assert Part(i, k, w, nd, lo, hi) == head + slice && head !! slice;
  }

  lemma ZeroSize(k: nat, w: nat, nd: nat)
    requires k <= w
    ensures |Basket2(0, k, w, nd)| == Pow2(w) * Pow2(w) * (Pow2(w - k) * nd)
  {
    hide Pow2, Hash2;
    var all, c := Below(Pow2(w)), Class(Pow2(w), Pow2(k), 0);
    forall key | key in Keys(w, nd)
      ensures Hash2(key, k) == 0 <==> key.c % Pow2(k) == 0
    {
      Hash2Form(key, k);
      Hash2Range(key, k);
    }
    assert Basket2(0, k, w, nd) == Box(all, all, c, Below(nd));
    ClassOfPower(w, k, 0);
    BelowSize(Pow2(w));
    BelowSize(nd);
    BoxSize(all, all, c, Below(nd));
  }

  /** Every basket among 2^k receives the same number of keys; with w = k and
      nd = 1 it is 2^(2k) of the 2^(3k) triples of low bits. */
  lemma PowerBalance(i: nat, k: nat, w: nat, nd: nat)
    requires k <= w && i < Pow2(k)
    ensures |Basket2(i, k, w, nd)| == nd * Pow2(3 * w - k)
  {
    hide Pow2, Hash2, Keys, Log2;
    var p, v := Pow2(w), Pow2(w - k);
    Pow2Add(w, w - k);
    Pow2Add(w, 2 * w - k);
    if i == 0 {
      ZeroSize(k, w, nd);
      Cuboid(1, p, p, v, nd);
    } else {
      var y := Log2(i);
      LogBelow(i, k);
      Pow2Double(y);
      Pow2Add(y, w - y);
      forall key | key in Keys(w, nd) && Hash2(key, k) == i
        ensures Pow2(y) <= key.c % Pow2(k) < Pow2(y + 1)
      {
        SameRange(key, k, i);
      }
      assert Basket2(i, k, w, nd) == Part(i, k, w, nd, Pow2(y), Pow2(y + 1));
      PartSize(i, k, w, nd, y, Pow2(y + 1));
      Cuboid(Pow2(y), Pow2(w - y), p, v, nd);
    }
  }

  lemma SameRange(key: Key, k: nat, i: nat)
    requires i > 0 && Hash2(key, k) == i
    ensures Pow2(Log2(i)) <= key.c % Pow2(k) < Pow2(Log2(i) + 1)
  {
    hide Pow2, Hash2, Log2;
    Hash2Form(key, k);
    Hash2Range(key, k);
    Log2Unique(i, Log2(key.c % Pow2(k)));
  }

  lemma Cuboid(x: int, u: int, p: int, v: int, nd: int)
    requires x * u == p
    ensures x * (u * p * (v * nd)) == nd * (p * (p * v))
  {
    MulAssoc(x, u * p, v * nd);
    MulAssoc(x, u, p);
    MulAssoc(p * p, v, nd);
    MulAssoc(p, p, v);
  }

  // ---- when all baskets are equally likely ----

  ghost function BasketKeys(n: nat, w: nat, i: nat): set<Key>
    requires Width(w) && 1 <= n <= Pow2(w - 1)
  {
    set key | key in Keys(w, Pow2(w)) && Hash(key, n, w) == Basket(i)
  }

  ghost predicate Balanced(n: nat, w: nat)
    requires Width(w) && 1 <= n <= Pow2(w - 1)
  {
    forall i: nat, j: nat | i < n && j < n :: |BasketKeys(n, w, i)| == |BasketKeys(n, w, j)|
  }

  /** The keys in baskets lo up to hi, and the sum of the sizes of those baskets. */
  ghost function InBaskets(n: nat, w: nat, lo: nat, hi: nat): set<Key>
    requires Width(w) && 1 <= n <= Pow2(w - 1)
  {
    set key | key in Keys(w, Pow2(w)) && Hash(key, n, w).Basket? && lo <= Hash(key, n, w).id < hi
  }

  ghost function Sizes(n: nat, w: nat, lo: nat, hi: nat): nat
    requires Width(w) && 1 <= n <= Pow2(w - 1)
  {
    if hi <= lo then 0 else Sizes(n, w, lo, hi - 1) + |BasketKeys(n, w, hi - 1)|
  }

  lemma {:induction false} InBasketsSize(n: nat, w: nat, lo: nat, hi: nat)
    requires Width(w) && 1 <= n <= Pow2(w - 1)
    ensures |InBaskets(n, w, lo, hi)| == Sizes(n, w, lo, hi)
    decreases hi
  {
    hide Pow2, Hash, Keys, InBaskets, BasketKeys;
    if hi <= lo {
      NoBasketsBetween(n, w, lo, hi);
    } else {
      InBasketsSize(n, w, lo, hi - 1);
      LastBasket(n, w, lo, hi);
    }
  }

  lemma NoBasketsBetween(n: nat, w: nat, lo: nat, hi: nat)
    requires Width(w) && 1 <= n <= Pow2(w - 1) && hi <= lo
    ensures |InBaskets(n, w, lo, hi)| == 0
  {
    hide Pow2, Hash, Keys;
    assert InBaskets(n, w, lo, hi) == {};
  }

  lemma LastBasket(n: nat, w: nat, lo: nat, hi: nat)
    requires Width(w) && 1 <= n <= Pow2(w - 1) && lo < hi
    ensures |InBaskets(n, w, lo, hi)| == |InBaskets(n, w, lo, hi - 1)| + |BasketKeys(n, w, hi - 1)|
  {
    hide Pow2, Hash, Keys;
    var before, last := InBaskets(n, w, lo, hi - 1), BasketKeys(n, w, hi - 1);
    assert InBaskets(n, w, lo, hi) == before + last && before !! last;
  }

  lemma {:induction false} EqualSizes(n: nat, w: nat, lo: nat, hi: nat)
    requires Width(w) && 1 <= n <= Pow2(w - 1) && lo <= hi <= n && Balanced(n, w)
    ensures Sizes(n, w, lo, hi) == (hi - lo) * |BasketKeys(n, w, 0)|
    decreases hi
  {
    hide Pow2, BasketKeys;
    if hi > lo {
      EqualSizes(n, w, lo, hi - 1);
      MulDistRight(hi - 1 - lo, 1, |BasketKeys(n, w, 0)|);
    }
  }

  /** Every key is in one of the n baskets. */
  lemma SizesAll(n: nat, w: nat)
    requires Width(w) && 1 <= n <= Pow2(w - 1)
    ensures Sizes(n, w, 0, n) == |Keys(w, Pow2(w))|
  {
    hide Pow2, Hash, Keys, Sizes;
    InBasketsSize(n, w, 0, n);
    forall key | key in Keys(w, Pow2(w))
      ensures key in InBaskets(n, w, 0, n)
    {
      HashBelow(key, n, w);
    }
    assert InBaskets(n, w, 0, n) == Keys(w, Pow2(w));
  }

  /** A factor of a power of two is a power of two. */
  lemma {:induction false} PowerFactor(n: nat, q: nat, m: nat) returns (k: nat)
    requires n * q == Pow2(m)
    ensures n == Pow2(k)
    decreases m
  {
    hide Pow2;
    Pow2Zero();
    if m == 0 {
      UnitFactor(n, q);
      k := 0;
    } else {
      Pow2Double(m - 1);
      if n % 2 == 0 {
        HalfFactor(n, q, Pow2(m - 1));
        k := PowerFactor(n / 2, q, m - 1);
        Pow2Double(k);
        k := k + 1;
      } else {
        OddFactor(n, q, Pow2(m - 1));
        k := PowerFactor(n, q / 2, m - 1);
      }
    }
  }

  lemma UnitFactor(n: nat, q: nat)
    requires n * q == 1
    ensures n == 1
  {
    if n > 1 && q > 0 {
      MulMonotone(n, 1, q);
    }
  }

  lemma HalfFactor(n: nat, q: nat, x: nat)
    requires n % 2 == 0 && n * q == 2 * x
    ensures (n / 2) * q == x
  {
    MulAssoc(2, n / 2, q);
  }

  lemma OddFactor(n: nat, q: nat, x: nat)
    requires n % 2 == 1 && n * q == 2 * x
    ensures n * (q / 2) == x
  {
    var h := n / 2;
    MulDistRight(2 * h, 1, q);
    MulAssoc(2, h, q);
    assert q == 2 * (x - h * q);
    MulAssoc(2, n, q / 2);
  }

  /** The promise that all baskets are equally likely holds exactly for powers of two. */
  lemma BalancedIff(n: nat, w: nat)
    requires Width(w) && 1 <= n <= Pow2(w - 1)
    ensures Balanced(n, w) <==> exists k: nat :: n == Pow2(k)
  {
    hide Pow2, Hash, Hash2, Keys;
    if k: nat :| n == Pow2(k) {
      PowerIsBalanced(k, w);
    }
    if Balanced(n, w) {
      SizesAll(n, w);
      EqualSizes(n, w, 0, n);
      AllKeys(w);
      var k := PowerFactor(n, |BasketKeys(n, w, 0)|, 4 * w);
    }
  }

  /** With three baskets the keys are not spread evenly. */
  lemma ThreeBaskets()
    ensures 3 <= Pow2(15) && !Balanced(3, 16)
  {
    hide Pow2, Hash, Keys, Balanced;
    Pow2Zero();
    Pow2Double(0);
    Pow2Double(1);
    Pow2Monotone(2, 15);
    BalancedIff(3, 16);
    if k: nat :| 3 == Pow2(k) {
      if k >= 2 {
        Pow2Monotone(2, k);
      }
    }
  }

  lemma AllKeys(w: nat)
    ensures |Keys(w, Pow2(w))| == Pow2(4 * w)
  {
    hide Pow2;
    var all := Below(Pow2(w));
    BelowSize(Pow2(w));
    BoxSize(all, all, all, all);
    Pow2Add(w, w);
    Pow2Add(2 * w, 2 * w);
  }

  lemma PowerIsBalanced(k: nat, w: nat)
    requires Width(w) && Pow2(k) <= Pow2(w - 1)
    ensures Balanced(Pow2(k), w)
  {
    hide Pow2, Hash, Hash2, Keys;
    if w <= k {
      Pow2Double(w - 1);
      Pow2Monotone(w, k);
    }
    forall i: nat | i < Pow2(k)
      ensures |BasketKeys(Pow2(k), w, i)| == Pow2(w) * Pow2(3 * w - k)
    {
      forall key
        ensures Hash(key, Pow2(k), w) == Basket(Hash2(key, k))
      {
        HashAtPower(key, k, w);
      }
      assert BasketKeys(Pow2(k), w, i) == Basket2(i, k, w, Pow2(w));
      PowerBalance(i, k, w, Pow2(w));
    }
  }

  ghost function Moved(n1: nat, n2: nat, w: nat): set<Key>
    requires Width(w) && 1 <= n1 <= n2 <= Pow2(w - 1)
  {
    set key | key in Keys(w, Pow2(w)) && Hash(key, n2, w) != Hash(key, n1, w)
  }

  /** Growing from n1 to n2 baskets moves exactly the keys of the new baskets. */
  lemma MovedSize(n1: nat, n2: nat, w: nat)
    requires Width(w) && 1 <= n1 <= n2 <= Pow2(w - 1)
    ensures Moved(n1, n2, w) == InBaskets(n2, w, n1, n2)
    ensures |Moved(n1, n2, w)| == Sizes(n2, w, n1, n2)
  {
    hide Pow2, Hash, Keys, Sizes;
    forall key | key in Keys(w, Pow2(w))
      ensures key in Moved(n1, n2, w) <==> key in InBaskets(n2, w, n1, n2)
    {
      HashBelow(key, n2, w);
      Monotone(key, n1, n2, w);
    }
    assert Moved(n1, n2, w) == InBaskets(n2, w, n1, n2);
    InBasketsSize(n2, w, n1, n2);
  }

  /** Growing to n2 equally likely baskets moves exactly the fraction (n2 - n1) / n2 of the keys. */
  lemma MovedFraction(n1: nat, n2: nat, w: nat)
    requires Width(w) && 1 <= n1 <= n2 <= Pow2(w - 1) && Balanced(n2, w)
    ensures |Moved(n1, n2, w)| * n2 == (n2 - n1) * |Keys(w, Pow2(w))|
  {
    hide Pow2, Moved, Keys, Sizes, Balanced, BasketKeys;
    MovedSize(n1, n2, w);
    SizesAll(n2, w);
    EqualSizes(n2, w, n1, n2);
    EqualSizes(n2, w, 0, n2);
    var q := |BasketKeys(n2, w, 0)|;
    MulAssoc(n2 - n1, q, n2);
  }

  /** Growing to n2 moves the promised fraction of the keys, whatever n1 was. */
  ghost predicate MovesFraction(n2: nat, w: nat)
    requires Width(w) && 1 <= n2 <= Pow2(w - 1)
  {
    forall n1: nat | 1 <= n1 <= n2 :: |Moved(n1, n2, w)| * n2 == (n2 - n1) * |Keys(w, Pow2(w))|
  }

  /** The promised fraction moves for every n1 exactly when n2 is a power of two. */
  lemma MovedIff(n2: nat, w: nat)
    requires Width(w) && 1 <= n2 <= Pow2(w - 1)
    ensures MovesFraction(n2, w) <==> exists k: nat :: n2 == Pow2(k)
  {
    hide Pow2, Hash, Hash2, Keys, Moved, Balanced;
    if k: nat :| n2 == Pow2(k) {
      PowerIsBalanced(k, w);
      forall n1: nat | 1 <= n1 <= n2
        ensures |Moved(n1, n2, w)| * n2 == (n2 - n1) * |Keys(w, Pow2(w))|
      {
        MovedFraction(n1, n2, w);
      }
    }
    if MovesFraction(n2, w) {
      AllKeys(w);
      if n2 == 1 {
        Pow2Zero();
      } else {
        assert |Moved(n2 - 1, n2, w)| * n2 == (n2 - (n2 - 1)) * |Keys(w, Pow2(w))|;
        var k := PowerFactor(n2, |Moved(n2 - 1, n2, w)|, 4 * w);
      }
    }
  }

  /** Growing from two baskets to three does not move a third of the keys. */
  lemma TwoToThree()
    ensures 3 <= Pow2(15) && |Moved(2, 3, 16)| * 3 != |Keys(16, Pow2(16))|
  {
    hide Pow2, Hash, Hash2, Keys, Moved;
    Pow2Zero();
    Pow2Double(0);
    Pow2Double(1);
    Pow2Monotone(2, 15);
    if |Moved(2, 3, 16)| * 3 == |Keys(16, Pow2(16))| {
      AllKeys(16);
      var k := PowerFactor(3, |Moved(2, 3, 16)|, 64);
      if k >= 2 {
        Pow2Monotone(2, k);
      }
    }
  }

  // ---- the remaining bits of the key ----

  lemma ShlKeeps(x: nat, s: nat, w: nat)
    requires s <= w
    ensures Shl(x, s, w) == (x % Pow2(w - s)) * Pow2(s)
  {
    hide Pow2;
    Pow2Add(w - s, s);
    ModScale(x, Pow2(w - s), Pow2(s));
  }

  /** One step of the packing: shift by s, then fill in s bits; nothing is lost while it fits. */
  lemma PackStep(x: nat, y: nat, bits: nat, s: nat, w: nat)
    requires x < Pow2(bits) && y < Pow2(s) && bits + s <= w
    ensures Or(Shl(x, s, w), y) == x * Pow2(s) + y < Pow2(bits + s)
  {
    hide Pow2, Or, Shl;
    ShlKeeps(x, s, w);
    Pow2Monotone(bits, w - s);
    ModSmall(x, Pow2(w - s));
    OrDisjoint(x, y, s);
    Pow2Add(bits, s);
    ScaledGap(x, Pow2(bits), Pow2(s));
  }

  /** For 16-bit blocks nothing is lost: the 64-bit value is the concatenation of d
      and the bits of c, b and a not used by the scheme for 2^k. */
  lemma AsteriskConcat(key: Key, k: nat)
    requires 1 <= k < 16 && InWidth(key, 16)
    ensures GetAsteriskBits(key, k, 16)
         == ((key.d * Pow2(16 - k) + Shr(key.c, k)) * Pow2(17 - k) + Shr(key.b, k - 1)) * Pow2(17 - k)
            + Shr(key.a, k - 1)
  {
    hide Pow2, Or, Shl, Shr;
    var s := 16 - k;
    ShrBelow(key.c, k, 16 - k);
    ShrBelow(key.b, k - 1, 17 - k);
    ShrBelow(key.a, k - 1, 17 - k);
    PackStep(key.d, Shr(key.c, k), 16, s, 32);
    var x := Or(Shl(key.d, s, 32), Shr(key.c, k));
    PackStep(x, Shr(key.b, k - 1), 16 + s, s + 1, 64);
    var y := Or(Shl(x, s + 1, 64), Shr(key.b, k - 1));
    PackStep(y, Shr(key.a, k - 1), 17 + 2 * s, s + 1, 64);
  }

  /** Keys with the same value agree on every bit the scheme for 2^k leaves unused. */
  lemma AsteriskInjective(p: Key, q: Key, k: nat)
    requires 1 <= k < 16 && InWidth(p, 16) && InWidth(q, 16)
    requires GetAsteriskBits(p, k, 16) == GetAsteriskBits(q, k, 16)
    ensures p.d == q.d && Shr(p.c, k) == Shr(q.c, k)
    ensures Shr(p.b, k - 1) == Shr(q.b, k - 1) && Shr(p.a, k - 1) == Shr(q.a, k - 1)
  {
    hide Pow2, Shr, GetAsteriskBits;
    AsteriskConcat(p, k);
    AsteriskConcat(q, k);
    ShrBelow(p.c, k, 16 - k);
    ShrBelow(p.b, k - 1, 17 - k);
    ShrBelow(p.a, k - 1, 17 - k);
    ShrBelow(q.c, k, 16 - k);
    ShrBelow(q.b, k - 1, 17 - k);
    ShrBelow(q.a, k - 1, 17 - k);
    var s, e := Pow2(16 - k), Pow2(17 - k);
    var px, qx := p.d * s + Shr(p.c, k), q.d * s + Shr(q.c, k);
    ThreeDigits(px, Shr(p.b, k - 1), Shr(p.a, k - 1), qx, Shr(q.b, k - 1), Shr(q.a, k - 1), e);
    SameDigits(p.d, Shr(p.c, k), q.d, Shr(q.c, k), s);
  }

  lemma ThreeDigits(x: int, y: int, z: int, x': int, y': int, z': int, e: int)
    requires 0 <= y < e && 0 <= y' < e && 0 <= z < e && 0 <= z' < e
    requires (x * e + y) * e + z == (x' * e + y') * e + z'
    ensures x == x' && y == y' && z == z'
  {
    SameDigits(x * e + y, z, x' * e + y', z', e);
    SameDigits(x, y, x', y', e);
  }

  lemma SameDigits(x: int, y: int, x': int, y': int, e: int)
    requires 0 <= y < e && 0 <= y' < e && x * e + y == x' * e + y'
    ensures x == x' && y == y'
  {
    DivModUnique(x * e + y, e, x, y);
    DivModUnique(x * e + y, e, x', y');
  }

  // ---- baskets of some keys ----

  lemma SmallPowers()
    ensures Pow2(0) == 1 && Pow2(1) == 2 && Pow2(2) == 4 && Pow2(15) == 0x8000 && Log2(2) == 1 && Log2(3) == 1
  {
    Log2Unique(2, 1);
    Log2Unique(3, 1);
  }

  /** Keys whose block c is 3: an even number of ones, so block a is read. */
  lemma ReadsBlockA(a: nat, b: nat)
    ensures Hash2(Key(a, b, 3, 0), 2) == 2 + a % 2 && Hash2(Key(a, b, 3, 0), 1) == 1
  {
    hide Pow2, Hash2, PopCount, Log2;
    SmallPowers();
    Hash2Form(Key(a, b, 3, 0), 2);
    Hash2Form(Key(a, b, 3, 0), 1);
    Log2Unique(1, 0);
    TwoOnes();
  }

  lemma TwoOnes()
    ensures PopCount(3) == 2
  {
  }

  lemma KnownNumber(a: nat)
    requires a < 32
    ensures GetAsteriskBits(Key(a, 0, 3, 0), 2, 16) == a / 2
  {
    hide Pow2, Or, Shl;
    SmallPowers();
    Thirtytwo();
    Pow2Monotone(5, 16);
    AsteriskConcat(Key(a, 0, 3, 0), 2);
  }

  lemma Thirtytwo()
    ensures Pow2(5) == 32
  {
  }

  lemma KnownSmooth(a: nat)
    requires a < 24
    ensures SmoothValue(Key(a, 0, 3, 0), 2, 3, 16) == a / 8 + 2
  {
    hide Pow2, GetAsteriskBits;
    SmallPowers();
    KnownNumber(a);
  }

  lemma AmongFour(key: Key)
    ensures 4 <= Pow2(15) && (Hash2(key, 2) < 4 ==> Hash(key, 4, 16) == Basket(Hash2(key, 2)))
  {
    hide Pow2, Log2, HashForPowersOf2, SmoothValue;
    SmallPowers();
  }

  lemma AmongThree(key: Key)
    requires Hash2(key, 2) == 3
    ensures 3 <= Pow2(15)
    ensures var smooth := SmoothValue(key, 2, 3, 16);
      Hash(key, 3, 16) == Basket(if smooth < 3 then smooth else Hash2(key, 1))
  {
    hide Pow2, Log2, HashForPowersOf2, SmoothValue;
    SmallPowers();
  }

  /** Among four, the place is read from block a; among three, the smooth step keeps a key in the
      new basket or sends it to the small scheme. */
  lemma KnownBaskets()
    ensures 4 <= Pow2(15) && Hash(Key(0, 1, 3, 0), 4, 16) == Basket(2)
    ensures Hash(Key(1, 0, 3, 0), 3, 16) == Basket(2) && Hash(Key(9, 0, 3, 0), 3, 16) == Basket(1)
  {
    hide Pow2, Hash, Hash2, SmoothValue;
    ReadsBlockA(0, 1);
    ReadsBlockA(1, 0);
    ReadsBlockA(9, 0);
    KnownSmooth(1);
    KnownSmooth(9);
    AmongFour(Key(0, 1, 3, 0));
    AmongThree(Key(1, 0, 3, 0));
    AmongThree(Key(9, 0, 3, 0));
  }
}
