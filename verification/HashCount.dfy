/** How many keys each basket of the consistent hash receives, exactly, and how far
    that is from an even share. */
module HashCount {
  import opened Arithmetic
  import opened Bitwise
  import opened Counting
  import opened ConsistentHashing
  import opened HashBalance

  // ---- the number made of the unused bits ----

  /** The bits of d and c above the low k bits of c, as one number. */
  function Upper(key: Key, k: nat, w: nat): nat
    requires k <= w
  {
    key.d * Pow2(w - k) + Shr(key.c, k)
  }

  /** How many of those bits reach the number: all for 16-bit blocks; for 32-bit blocks those
      that 64 bits have room for, and d is cut to its low k bits before that. */
  function Kept(k: nat, w: nat): nat
    requires Width(w) && 1 <= k < w
  {
    if w == 16 then 32 - k else if k <= 17 then 2 * k - 2 else 32
  }

  /** The number is below 2^NumberBits. */
  function NumberBits(k: nat, w: nat): nat
    requires Width(w) && 1 <= k < w
  {
    Kept(k, w) + 2 * (w - k + 1)
  }

  lemma PackAny(x: nat, y: nat, s: nat, w: nat)
    requires s <= w && y < Pow2(s)
    ensures Or(Shl(x, s, w), y) == (x % Pow2(w - s)) * Pow2(s) + y
  {
    hide Pow2, Or, Shl;
    ShlKeeps(x, s, w);
    OrDisjoint(x % Pow2(w - s), y, s);
  }

  /** Reducing a number made of two parts by a power of two that covers the low part. */
  lemma ModParts(x: nat, y: nat, s: nat, t: nat)
    requires s <= t && y < Pow2(s)
    ensures (x * Pow2(s) + y) % Pow2(t) == (x % Pow2(t - s)) * Pow2(s) + y
  {
    hide Pow2;
    var p, q := Pow2(s), Pow2(t - s);
    Pow2Add(t - s, s);
    var d, r := x / q, x % q;
    MulDistRight(q * d, r, p);
    MulAssoc(q, d, p);
    MulAssoc(q, p, d);
    ScaledGap(r, q, p);
    MulMonotone(p, 0, r);
    DivModUnique(x * p + y, q * p, d, r * p + y);
  }

  /** The number in closed form: the kept bits of d and c, then those of b and a. */
  function Packed(upper: nat, b: nat, a: nat, e: nat): nat {
    (upper * e + b) * e + a
  }

  lemma AsteriskForm(key: Key, k: nat, w: nat)
    requires Width(w) && 1 <= k < w && InWidth(key, w)
    ensures GetAsteriskBits(key, k, w)
         == Packed(Upper(key, k, w) % Pow2(Kept(k, w)), Shr(key.b, k - 1), Shr(key.a, k - 1), Pow2(w - k + 1))
  {
    hide Pow2, Or, Shl, Shr, GetAsteriskBits;
    if w == 16 {
      AsteriskConcat(key, k);
      UpperBelow(key, k, w);
      ModSmall(Upper(key, k, w), Pow2(32 - k));
    } else {
      AsteriskForm32(key, k);
    }
  }

  lemma UpperBelow(key: Key, k: nat, w: nat)
    requires k <= w && InWidth(key, w)
    ensures Upper(key, k, w) < Pow2(2 * w - k)
  {
    hide Pow2, Shr;
    ShrBelow(key.c, k, w - k);
    Pow2Add(w, w - k);
    ScaledGap(key.d, Pow2(w), Pow2(w - k));
  }

  lemma AsteriskForm32(key: Key, k: nat)
    requires 1 <= k < 32 && InWidth(key, 32)
    ensures GetAsteriskBits(key, k, 32)
         == Packed(Upper(key, k, 32) % Pow2(Kept(k, 32)), Shr(key.b, k - 1), Shr(key.a, k - 1), Pow2(33 - k))
  {
    hide Pow2, Or, Shl, Shr;
    var s, c, b, a, e := 32 - k, Shr(key.c, k), Shr(key.b, k - 1), Shr(key.a, k - 1), Pow2(33 - k);
    ShrBelow(key.c, k, s);
    ShrBelow(key.b, k - 1, s + 1);
    ShrBelow(key.a, k - 1, s + 1);
    var n := Upper(key, k, 32);
    PackAny(key.d, c, s, 32);
    ModParts(key.d, c, s, 32);
    var x := Or(Shl(key.d, s, 32), c);
    assert x == n % Pow2(32);
    PackAny(x, b, s + 1, 64);
    Pow2Monotone(32, 31 + k);
    ModSmall(x, Pow2(31 + k));
    var y := Or(Shl(x, s + 1, 64), b);
    PackAny(y, a, s + 1, 64);
    ModParts(x, b, s + 1, 31 + k);
    KeptBits(n, k);
  }

  lemma KeptBits(n: nat, k: nat)
    requires 1 <= k < 32
    ensures (n % Pow2(32)) % Pow2(2 * k - 2) == n % Pow2(Kept(k, 32))
  {
    hide Pow2;
    if k <= 17 {
      ModPow2(n, 2 * k - 2, 32);
    } else {
      Pow2Monotone(32, 2 * k - 2);
      ModSmall(n % Pow2(32), Pow2(2 * k - 2));
    }
  }

  /** Packing is positional, so the parts can be read off. */
  lemma PackedParts(u: nat, b: nat, a: nat, e: nat, x: nat)
    requires e > 0 && b < e && a < e
    ensures Packed(u, b, a, e) == x <==> u == x / e / e && b == (x / e) % e && a == x % e
  {
    var y := u * e + b;
    if Packed(u, b, a, e) == x {
      DivModUnique(x, e, y, a);
      DivModUnique(y, e, u, b);
    }
  }

  /** Two keys give the same number exactly when they agree on the bits that reach it. */
  lemma AsteriskSame(p: Key, q: Key, k: nat, w: nat)
    requires Width(w) && 1 <= k < w && InWidth(p, w) && InWidth(q, w)
    ensures GetAsteriskBits(p, k, w) == GetAsteriskBits(q, k, w)
       <==> && Upper(p, k, w) % Pow2(Kept(k, w)) == Upper(q, k, w) % Pow2(Kept(k, w))
            && Shr(p.b, k - 1) == Shr(q.b, k - 1) && Shr(p.a, k - 1) == Shr(q.a, k - 1)
  {
    hide Pow2, Shr, GetAsteriskBits, Upper, Packed;
    AsteriskForm(p, k, w);
    AsteriskForm(q, k, w);
    var e, u := Pow2(w - k + 1), Pow2(Kept(k, w));
    ShrBelow(p.b, k - 1, w - k + 1);
    ShrBelow(p.a, k - 1, w - k + 1);
    ShrBelow(q.b, k - 1, w - k + 1);
    ShrBelow(q.a, k - 1, w - k + 1);
    var x := GetAsteriskBits(q, k, w);
    PackedParts(Upper(p, k, w) % u, Shr(p.b, k - 1), Shr(p.a, k - 1), e, x);
    PackedParts(Upper(q, k, w) % u, Shr(q.b, k - 1), Shr(q.a, k - 1), e, x);
  }

  /** The keys agree on every bit the scheme for 2^k leaves unused. */
  predicate SameUnused(p: Key, q: Key, k: nat)
    requires k > 0
  {
    && p.d == q.d && Shr(p.c, k) == Shr(q.c, k)
    && Shr(p.b, k - 1) == Shr(q.b, k - 1) && Shr(p.a, k - 1) == Shr(q.a, k - 1)
  }

  ghost predicate KeepsUnused(k: nat, w: nat)
    requires Width(w) && 1 <= k < w
  {
    forall p, q | InWidth(p, w) && InWidth(q, w) && GetAsteriskBits(p, k, w) == GetAsteriskBits(q, k, w) ::
      SameUnused(p, q, k)
  }

  lemma TopUpper(k: nat)
    requires 1 <= k < 32
    ensures Upper(Key(0, 0, 0, Pow2(31)), k, 32) % Pow2(Kept(k, 32)) == 0
    ensures Upper(Key(0, 0, 0, 0), k, 32) % Pow2(Kept(k, 32)) == 0
  {
    hide Pow2;
    var u := Pow2(Kept(k, 32));
    ModSmall(0, Pow2(k));
    ModSmall(0, u);
    Pow2Add(31, 32 - k);
    Pow2Add(Kept(k, 32), 63 - k - Kept(k, 32));
    ModSame(Pow2(63 - k), 0, Pow2(63 - k - Kept(k, 32)), u);
  }

  /** The highest bit of d is among the bits that 64 bits have no room for. */
  lemma TopBitLost(k: nat)
    requires 1 <= k < 32
    ensures !KeepsUnused(k, 32)
  {
    hide Pow2, Shr, GetAsteriskBits, Upper, Kept;
    var p, q := Key(0, 0, 0, 0), Key(0, 0, 0, Pow2(31));
    Pow2Double(31);
    TopUpper(k);
    AsteriskSame(p, q, k, 32);
    assert InWidth(p, 32) && InWidth(q, 32) && !SameUnused(p, q, k);
  }

  /** The number determines every unused bit exactly for 16-bit blocks. */
  lemma KeepsUnusedIff(k: nat, w: nat)
    requires Width(w) && 1 <= k < w
    ensures KeepsUnused(k, w) <==> w == 16
  {
    hide Pow2, Shr, GetAsteriskBits;
    if w == 16 {
      forall p, q | InWidth(p, w) && InWidth(q, w) && GetAsteriskBits(p, k, w) == GetAsteriskBits(q, k, w)
        ensures SameUnused(p, q, k)
      {
        AsteriskInjective(p, q, k);
      }
    } else {
      TopBitLost(k);
    }
  }

  // ---- the keys behind one number and a pair of baskets ----

  /** The keys with baskets l and s in the two schemes and number x. */
  ghost function Fiber(l: nat, s: nat, x: nat, k: nat, w: nat): set<Key>
    requires 1 <= k < w
  {
    set key | key in Joint(l, s, k, w, Pow2(w)) && GetAsteriskBits(key, k, w) == x
  }

  ghost function FiberPart(l: nat, s: nat, x: nat, k: nat, w: nat, lo: nat, hi: nat): set<Key>
    requires 1 <= k < w
  {
    set key | key in Fiber(l, s, x, k, w) && lo <= key.c % Pow2(k - 1) < hi
  }

  /** The blocks that the small and the large scheme read when the low bits of c are j. */
  function SmallBlock(key: Key, j: nat): nat {
    if PopCount(j) % 2 == 0 then key.a else key.b
  }

  function LargeBlock(key: Key, j: nat): nat {
    if PopCount(j) % 2 == 0 then key.b else key.a
  }

  /** What a number prescribes for the upper bits of block a (first) or b. */
  function Digit(first: bool, x: nat, e: nat): (d: nat)
    requires e > 0
    ensures d < e
  {
    if first then x % e else (DivNonneg(x, e); (x / e) % e)
  }

  /** What it prescribes for the kept bits of d and c. */
  function Top(x: nat, e: nat): nat
    requires e > 0
  {
    DivNonneg(x, e);
    DivNonneg(x / e, e);
    x / e / e
  }

  ghost predicate InSlice(key: Key, l: nat, s: nat, x: nat, k: nat, w: nat, y: nat, j: nat)
    requires Width(w) && 1 <= k < w && l >= Pow2(k - 1)
  {
    var e, even := Pow2(w - k + 1), PopCount(j) % 2 == 0;
    && key.c % Pow2(k) == Pow2(k - 1) + j
    && LargeBlock(key, j) % Pow2(k - 1) == l - Pow2(k - 1)
    && Shr(LargeBlock(key, j), k - 1) == Digit(!even, x, e)
    && SmallBlock(key, j) % Pow2(y) == Offset(s)
    && Shr(SmallBlock(key, j), k - 1) == Digit(even, x, e)
    && Upper(key, k, w) % Pow2(Kept(k, w)) == Top(x, e)
  }

  lemma SliceCondition(key: Key, l: nat, s: nat, x: nat, k: nat, w: nat, y: nat, j: nat)
    requires Width(w) && 1 <= k < w && InWidth(key, w)
    requires Pow2(k - 1) <= l < Pow2(k) && j < Pow2(k - 1) && Selects(s, j, y)
    ensures Hash2(key, k) == l && Hash2(key, k - 1) == s && GetAsteriskBits(key, k, w) == x && key.c % Pow2(k - 1) == j
       <==> InSlice(key, l, s, x, k, w, y, j)
  {
    hide Pow2, Hash2, PopCount, Selects, Offset, Shr, Upper, GetAsteriskBits, Packed, Kept;
    SliceMember(key, l, s, k, y, j);
    AsteriskForm(key, k, w);
    ShrBelow(key.b, k - 1, w - k + 1);
    ShrBelow(key.a, k - 1, w - k + 1);
    PackedParts(Upper(key, k, w) % Pow2(Kept(k, w)), Shr(key.b, k - 1), Shr(key.a, k - 1), Pow2(w - k + 1), x);
  }

  lemma Rejoin(v: nat, m: nat)
    ensures v == Shr(v, m) * Pow2(m) + v % Pow2(m)
  {
  }

  lemma Parts(hi: nat, lo: nat, m: nat)
    requires lo < Pow2(m)
    ensures Shr(hi * Pow2(m) + lo, m) == hi && (hi * Pow2(m) + lo) % Pow2(m) == lo
  {
    hide Pow2;
    DivModUnique(hi * Pow2(m) + lo, Pow2(m), hi, lo);
  }

  /** Within a slice the low bits of the small block and the upper number tell the key. */
  lemma SliceDetermined(p: Key, q: Key, l: nat, s: nat, x: nat, k: nat, w: nat, y: nat, j: nat)
    requires Width(w) && 1 <= k < w && l >= Pow2(k - 1) && InWidth(p, w) && InWidth(q, w)
    requires InSlice(p, l, s, x, k, w, y, j) && InSlice(q, l, s, x, k, w, y, j)
    requires SmallBlock(p, j) % Pow2(k - 1) == SmallBlock(q, j) % Pow2(k - 1)
    requires Upper(p, k, w) == Upper(q, k, w)
    ensures p == q
  {
    hide Pow2, PopCount, Shr, Kept, Offset, Digit;
    Rejoin(SmallBlock(p, j), k - 1);
    Rejoin(SmallBlock(q, j), k - 1);
    Rejoin(LargeBlock(p, j), k - 1);
    Rejoin(LargeBlock(q, j), k - 1);
    Rejoin(p.c, k);
    Rejoin(q.c, k);
    ShrBelow(p.c, k, w - k);
    ShrBelow(q.c, k, w - k);
    SameDigits(p.d, Shr(p.c, k), q.d, Shr(q.c, k), Pow2(w - k));
  }

  lemma BlockMake(digit: nat, low: nat, k: nat, w: nat) returns (block: nat)
    requires 1 <= k < w && digit < Pow2(w - k + 1) && low < Pow2(k - 1)
    ensures block < Pow2(w) && Shr(block, k - 1) == digit && block % Pow2(k - 1) == low
  {
    hide Pow2, Shr;
    block := digit * Pow2(k - 1) + low;
    Pow2Add(w - k + 1, k - 1);
    ScaledGap(digit, Pow2(w - k + 1), Pow2(k - 1));
    Parts(digit, low, k - 1);
  }

  lemma UpperMake(n: nat, low: nat, k: nat, w: nat) returns (c: nat, d: nat)
    requires k < w && n < Pow2(2 * w - k) && low < Pow2(k)
    ensures c < Pow2(w) && d < Pow2(w) && c % Pow2(k) == low && d * Pow2(w - k) + Shr(c, k) == n
  {
    hide Pow2, Shr;
    var p := Pow2(w - k);
    d := Shr(n, w - k);
    ShrBelow(n, w - k, w);
    Rejoin(n, w - k);
    var r := n % p;
    c := r * Pow2(k) + low;
    Parts(r, low, k);
    Pow2Add(w - k, k);
    ScaledGap(r, p, Pow2(k));
  }

  /** Every combination of them occurs. */
  lemma SliceMake(t: nat, n: nat, l: nat, s: nat, x: nat, k: nat, w: nat, y: nat, j: nat) returns (key: Key)
    requires Width(w) && 1 <= k < w && Pow2(k - 1) <= l < Pow2(k) && j < Pow2(k - 1) && y < k
    requires t < Pow2(k - 1) && t % Pow2(y) == Offset(s)
    requires n < Pow2(2 * w - k) && n % Pow2(Kept(k, w)) == Top(x, Pow2(w - k + 1))
    ensures InWidth(key, w) && InSlice(key, l, s, x, k, w, y, j)
    ensures SmallBlock(key, j) % Pow2(k - 1) == t && Upper(key, k, w) == n
  {
    hide Pow2, PopCount, Shr, Kept, Offset, Digit, Top, Upper;
    var h, e, even := Pow2(k - 1), Pow2(w - k + 1), PopCount(j) % 2 == 0;
    Pow2Double(k - 1);
    var small := BlockMake(Digit(even, x, e), t, k, w);
    var large := BlockMake(Digit(!even, x, e), l - h, k, w);
    ModPow2(small, y, k - 1);
    var c, d := UpperMake(n, h + j, k, w);
    key := if even then Key(small, large, c, d) else Key(large, small, c, d);
    UpperIs(key, k, w, n);
  }

  lemma UpperIs(key: Key, k: nat, w: nat, n: nat)
    requires k <= w && key.d * Pow2(w - k) + Shr(key.c, k) == n
    ensures Upper(key, k, w) == n
  {
    hide Pow2, Shr;
  }

  /** What tells the keys of a slice apart. */
  function Coordinates(key: Key, k: nat, w: nat, j: nat): (nat, nat)
    requires 1 <= k <= w
  {
    (SmallBlock(key, j) % Pow2(k - 1), Upper(key, k, w))
  }

  ghost function Grid(s: nat, x: nat, k: nat, w: nat, y: nat): set<(nat, nat)>
    requires Width(w) && 1 <= k < w
  {
    hide Pow2;
    Pairs(Class(Pow2(k - 1), Pow2(y), Offset(s)), Class(Pow2(2 * w - k), Pow2(Kept(k, w)), Top(x, Pow2(w - k + 1))))
  }

  lemma TopBelow(x: nat, k: nat, w: nat)
    requires Width(w) && 1 <= k < w && x < Pow2(NumberBits(k, w))
    ensures Top(x, Pow2(w - k + 1)) < Pow2(Kept(k, w))
  {
    hide Pow2, Kept;
    var e, u := Pow2(w - k + 1), Pow2(Kept(k, w));
    Pow2Add(w - k + 1, w - k + 1 + Kept(k, w));
    Pow2Add(w - k + 1, Kept(k, w));
    DivBound(x, e, e * u);
    DivBound(x / e, e, u);
  }

  lemma GridSize(s: nat, x: nat, k: nat, w: nat, y: nat)
    requires Width(w) && 1 <= k < w && x < Pow2(NumberBits(k, w)) && y < k && Offset(s) < Pow2(y)
    ensures |Grid(s, x, k, w, y)| == Pow2(k - 1 - y) * Pow2(2 * w - k - Kept(k, w))
  {
    hide Pow2, Top, Offset;
    TopBelow(x, k, w);
    ClassOfPower(k - 1, y, Offset(s));
    ClassOfPower(2 * w - k, Kept(k, w), Top(x, Pow2(w - k + 1)));
    PairsSize(Class(Pow2(k - 1), Pow2(y), Offset(s)),
              Class(Pow2(2 * w - k), Pow2(Kept(k, w)), Top(x, Pow2(w - k + 1))));
  }

  lemma InGrid(s: nat, x: nat, k: nat, w: nat, y: nat, p: (nat, nat))
    requires Width(w) && 1 <= k < w
    ensures p in Grid(s, x, k, w, y)
       <==> && p.0 < Pow2(k - 1) && p.0 % Pow2(y) == Offset(s)
            && p.1 < Pow2(2 * w - k) && p.1 % Pow2(Kept(k, w)) == Top(x, Pow2(w - k + 1))
  {
    hide Pow2, Top, Offset, Kept;
  }

  lemma InKeys(key: Key, w: nat)
    ensures key in Keys(w, Pow2(w)) <==> InWidth(key, w)
  {
    hide Pow2;
  }

  lemma InFiberPart(key: Key, l: nat, s: nat, x: nat, k: nat, w: nat, y: nat, j: nat)
    requires Width(w) && 1 <= k < w
    requires Pow2(k - 1) <= l < Pow2(k) && j < Pow2(k - 1) && Selects(s, j, y)
    ensures key in FiberPart(l, s, x, k, w, j, j + 1) <==> InWidth(key, w) && InSlice(key, l, s, x, k, w, y, j)
  {
    hide Pow2, Hash2, Keys, Selects, GetAsteriskBits, InSlice, InWidth;
    InKeys(key, w);
    if InWidth(key, w) {
      SliceCondition(key, l, s, x, k, w, y, j);
    }
  }

  lemma SliceOnGrid(key: Key, l: nat, s: nat, x: nat, k: nat, w: nat, y: nat, j: nat)
    requires Width(w) && 1 <= k < w && l >= Pow2(k - 1) && y < k && InWidth(key, w)
    requires InSlice(key, l, s, x, k, w, y, j)
    ensures Coordinates(key, k, w, j) in Grid(s, x, k, w, y)
  {
    hide Pow2, Upper, Top, Offset, Kept, Grid, PopCount, Digit, Shr;
    InGrid(s, x, k, w, y, Coordinates(key, k, w, j));
    UpperBelow(key, k, w);
    ModPow2(SmallBlock(key, j), y, k - 1);
  }

  lemma FiberSlice(l: nat, s: nat, x: nat, k: nat, w: nat, y: nat, j: nat)
    requires Width(w) && 1 <= k < w && x < Pow2(NumberBits(k, w)) && y < k
    requires Pow2(k - 1) <= l < Pow2(k) && j < Pow2(k - 1) && Selects(s, j, y)
    ensures |FiberPart(l, s, x, k, w, j, j + 1)| == Pow2(k - 1 - y) * Pow2(2 * w - k - Kept(k, w))
  {
    hide Pow2, FiberPart, Grid, InSlice, InWidth, Selects, Offset, Coordinates, Kept;
    var part, grid := FiberPart(l, s, x, k, w, j, j + 1), Grid(s, x, k, w, y);
    forall key | key in part
      ensures Coordinates(key, k, w, j) in grid
    {
      InFiberPart(key, l, s, x, k, w, y, j);
      SliceOnGrid(key, l, s, x, k, w, y, j);
    }
    forall p, q | p in part && q in part && Coordinates(p, k, w, j) == Coordinates(q, k, w, j)
      ensures p == q
    {
      InFiberPart(p, l, s, x, k, w, y, j);
      InFiberPart(q, l, s, x, k, w, y, j);
      SameCoordinates(p, q, l, s, x, k, w, y, j);
    }
    forall p | p in grid
      ensures exists key :: key in part && Coordinates(key, k, w, j) == p
    {
      var key := FromGrid(p, l, s, x, k, w, y, j);
      InFiberPart(key, l, s, x, k, w, y, j);
    }
    SameSize(part, grid, (key: Key) => Coordinates(key, k, w, j));
    OffsetBelow(s, j, y);
    GridSize(s, x, k, w, y);
  }

  lemma SameCoordinates(p: Key, q: Key, l: nat, s: nat, x: nat, k: nat, w: nat, y: nat, j: nat)
    requires Width(w) && 1 <= k < w && l >= Pow2(k - 1) && InWidth(p, w) && InWidth(q, w)
    requires InSlice(p, l, s, x, k, w, y, j) && InSlice(q, l, s, x, k, w, y, j)
    requires Coordinates(p, k, w, j) == Coordinates(q, k, w, j)
    ensures p == q
  {
    hide Pow2, InSlice, Upper, SmallBlock;
    SliceDetermined(p, q, l, s, x, k, w, y, j);
  }

  lemma FromGrid(p: (nat, nat), l: nat, s: nat, x: nat, k: nat, w: nat, y: nat, j: nat) returns (key: Key)
    requires Width(w) && 1 <= k < w && Pow2(k - 1) <= l < Pow2(k) && j < Pow2(k - 1) && y < k
    requires p in Grid(s, x, k, w, y)
    ensures InWidth(key, w) && InSlice(key, l, s, x, k, w, y, j) && Coordinates(key, k, w, j) == p
  {
    hide Pow2, Grid, InSlice, InWidth, Upper, SmallBlock;
    InGrid(s, x, k, w, y, p);
    key := SliceMake(p.0, p.1, l, s, x, k, w, y, j);
  }

  function PartCount(k: nat, w: nat, y: nat): nat
    requires Width(w) && 1 <= k < w && y < k
  {
    hide Pow2;
    Pow2(k - 1 - y) * Pow2(2 * w - k - Kept(k, w))
  }

  lemma {:induction false} FiberRange(l: nat, s: nat, x: nat, k: nat, w: nat, y: nat, lo: nat, hi: nat)
    requires Width(w) && 1 <= k < w && x < Pow2(NumberBits(k, w)) && y < k
    requires Pow2(k - 1) <= l < Pow2(k) && lo <= hi <= Pow2(k - 1)
    requires forall j | lo <= j < hi :: Selects(s, j, y)
    ensures |FiberPart(l, s, x, k, w, lo, hi)| == (hi - lo) * PartCount(k, w, y)
    decreases hi
  {
    hide Pow2, Fiber, PartCount, Selects;
    if hi == lo {
      assert FiberPart(l, s, x, k, w, lo, hi) == {};
    } else {
      FiberRange(l, s, x, k, w, y, lo, hi - 1);
      FiberSliceCount(l, s, x, k, w, y, hi - 1);
      FiberStep(l, s, x, k, w, lo, hi);
      MulDistRight(hi - 1 - lo, 1, PartCount(k, w, y));
    }
  }

  lemma FiberSliceCount(l: nat, s: nat, x: nat, k: nat, w: nat, y: nat, j: nat)
    requires Width(w) && 1 <= k < w && x < Pow2(NumberBits(k, w)) && y < k
    requires Pow2(k - 1) <= l < Pow2(k) && j < Pow2(k - 1) && Selects(s, j, y)
    ensures |FiberPart(l, s, x, k, w, j, j + 1)| == PartCount(k, w, y)
  {
    hide Pow2, FiberPart;
    FiberSlice(l, s, x, k, w, y, j);
  }

  lemma FiberStep(l: nat, s: nat, x: nat, k: nat, w: nat, lo: nat, hi: nat)
    requires 1 <= k < w && lo < hi
    ensures |FiberPart(l, s, x, k, w, lo, hi)|
         == |FiberPart(l, s, x, k, w, lo, hi - 1)| + |FiberPart(l, s, x, k, w, hi - 1, hi)|
  {
    hide Pow2, Fiber;
    var head, slice := FiberPart(l, s, x, k, w, lo, hi - 1), FiberPart(l, s, x, k, w, hi - 1, hi);
    assert FiberPart(l, s, x, k, w, lo, hi) == head + slice && head !! slice;
  }

  /** How many keys share both baskets and the number. */
  function Weight(k: nat, w: nat): nat
    requires Width(w) && 1 <= k < w
  {
    Pow2(2 * w - 1 - Kept(k, w))
  }

  /** The number is independent of both baskets: every combination comes from the same number of keys. */
  lemma FiberSize(l: nat, s: nat, x: nat, k: nat, w: nat)
    requires Width(w) && 1 <= k < w && x < Pow2(NumberBits(k, w))
    requires Pow2(k - 1) <= l < Pow2(k) && s < Pow2(k - 1)
    ensures |Fiber(l, s, x, k, w)| == Weight(k, w)
  {
    hide Pow2, Joint, GetAsteriskBits, Selects, NumberBits;
    var y, lo, hi := LowBits(l, s, k, w, Pow2(w));
    assert Fiber(l, s, x, k, w) == FiberPart(l, s, x, k, w, lo, hi);
    FiberRange(l, s, x, k, w, y, lo, hi);
    PartProduct(k, w, y);
  }

  lemma PartProduct(k: nat, w: nat, y: nat)
    requires Width(w) && 1 <= k < w && y < k
    ensures Pow2(y) * PartCount(k, w, y) == Weight(k, w)
  {
    hide Pow2, Kept;
    var g := 2 * w - k - Kept(k, w);
    KeptFits(k, w);
    Pow2Add(y, k - 1 - y);
    Pow2Add(k - 1, g);
    MulAssoc(Pow2(y), Pow2(k - 1 - y), Pow2(g));
  }

  lemma KeptFits(k: nat, w: nat)
    requires Width(w) && 1 <= k < w
    ensures Kept(k, w) <= 2 * w - k
  {
  }

  // ---- what each large basket contributes ----

  /** The keys that the large scheme sends to l, too large for n, and that end in v. */
  ghost function Movers(v: nat, l: nat, n: nat, k: nat, w: nat): set<Key>
    requires Width(w) && 1 <= k < w && l > 0
  {
    hide Pow2, GetAsteriskBits, Hash2, Pick, Range, Basket2;
    set key | key in Basket2(l, k, w, Pow2(w))
              && Pick(l, GetAsteriskBits(key, k, w) % Range(l), Hash2(key, k - 1), n, k) == v
  }

  /** The numbers and small baskets that lead there. */
  ghost function KeyWays(v: nat, l: nat, n: nat, k: nat, w: nat): set<(nat, nat)>
    requires Width(w) && 1 <= k < w && l > 0
  {
    hide Pow2, Pick, Range, NumberBits;
    set p | p in Pairs(Interval(0, Pow2(NumberBits(k, w))), Interval(0, Pow2(k - 1)))
            && Pick(l, p.0 % Range(l), p.1, n, k) == v
  }

  lemma NumberBelow(key: Key, k: nat, w: nat)
    requires Width(w) && 1 <= k < w && InWidth(key, w)
    ensures GetAsteriskBits(key, k, w) < Pow2(NumberBits(k, w))
  {
    hide Pow2, GetAsteriskBits, Upper, Shr, Kept;
    AsteriskForm(key, k, w);
    var e, u := Pow2(w - k + 1), Pow2(Kept(k, w));
    ShrBelow(key.b, k - 1, w - k + 1);
    ShrBelow(key.a, k - 1, w - k + 1);
    Pow2Add(Kept(k, w), w - k + 1);
    Pow2Add(Kept(k, w) + (w - k + 1), w - k + 1);
    var x := Upper(key, k, w) % u;
    ScaledGap(x, u, e);
    ScaledGap(x * e + Shr(key.b, k - 1), u * e, e);
  }

  function NumberAndSmall(key: Key, k: nat, w: nat): (nat, nat)
    requires 1 <= k <= w
  {
    (GetAsteriskBits(key, k, w), Hash2(key, k - 1))
  }

  lemma MoversSize(v: nat, l: nat, n: nat, k: nat, w: nat)
    requires Width(w) && 1 <= k < w && Pow2(k - 1) <= l < Pow2(k)
    ensures |Movers(v, l, n, k, w)| == Weight(k, w) * |KeyWays(v, l, n, k, w)|
  {
    hide Pow2, Keys, Hash2, GetAsteriskBits, Pick, Range, Interval, NumberBits, Weight;
    var z, t := Basket2(l, k, w, Pow2(w)), KeyWays(v, l, n, k, w);
    var g := (key: Key) => NumberAndSmall(key, k, w);
    forall p | p in t
      ensures |WithValue(z, g, p)| == Weight(k, w)
    {
      InInterval(0, Pow2(NumberBits(k, w)), p.0);
      InInterval(0, Pow2(k - 1), p.1);
      FiberSize(l, p.1, p.0, k, w);
      assert WithValue(z, g, p) == Fiber(l, p.1, p.0, k, w);
    }
    FiberSum(z, g, t, Weight(k, w));
    forall key | key in z
      ensures g(key) in Pairs(Interval(0, Pow2(NumberBits(k, w))), Interval(0, Pow2(k - 1)))
    {
      InKeys(key, w);
      NumberBelow(key, k, w);
      Hash2Range(key, k - 1);
      InInterval(0, Pow2(NumberBits(k, w)), g(key).0);
      InInterval(0, Pow2(k - 1), g(key).1);
    }
    assert Movers(v, l, n, k, w) == WithValues(z, g, t);
  }

  /** How many combinations lead from l to v: the numbers below 2^NumberBits, reduced modulo
      l * (l + 1), that fall to a new basket v, with any small basket; or to none, with the small basket v. */
  function Reached(v: nat, l: nat, n: nat, k: nat, w: nat): nat
    requires Width(w) && 1 <= k < w && Between(n, k) && n <= l < Pow2(k) && v < n
  {
    hide Pow2, NumberBits, Hits, Range;
    Room(n, k, l);
    RangePositive(l);
    var all, h := Pow2(NumberBits(k, w)), Pow2(k - 1);
    if v >= h then
      MulMonotone(Pow2(k), 0, v - h);
      Hits(all, Range(l), Pow2(k) * (v - h), Pow2(k) * (v - h) + Pow2(k)) * h
    else Hits(all, Range(l), (n - h) * Pow2(k), Range(l))
  }

  lemma RangePositive(l: nat)
    ensures l > 0 ==> Range(l) > 0
  {
    if l > 0 {
      MulMonotone(l, 1, l + 1);
    }
  }

  lemma KeyWaysAre(v: nat, l: nat, n: nat, k: nat, w: nat, numbers: set<nat>, smalls: set<nat>)
    requires Width(w) && 1 <= k < w && l > 0
    requires numbers <= Interval(0, Pow2(NumberBits(k, w))) && smalls <= Interval(0, Pow2(k - 1))
    requires forall x, small | x in Interval(0, Pow2(NumberBits(k, w))) && small in Interval(0, Pow2(k - 1)) ::
               Pick(l, x % Range(l), small, n, k) == v <==> x in numbers && small in smalls
    ensures |KeyWays(v, l, n, k, w)| == |numbers| * |smalls|
  {
    hide Pow2, Interval, Pick, Range, NumberBits;
    assert KeyWays(v, l, n, k, w) == Pairs(numbers, smalls);
    PairsSize(numbers, smalls);
  }

  lemma KeyWaysToNew(v: nat, l: nat, n: nat, k: nat, w: nat)
    requires Width(w) && 1 <= k < w && Between(n, k) && n <= l < Pow2(k) && Pow2(k - 1) <= v < n
    ensures |KeyWays(v, l, n, k, w)| == Reached(v, l, n, k, w)
  {
    hide Pow2, Pick, Interval, Shr, Range, NumberBits, HitSet, Hits, KeyWays;
    var all, m, h := Pow2(NumberBits(k, w)), Range(l), Pow2(k - 1);
    RangePositive(l);
    var lo := NewNumbers(v, n, k, l);
    var hi := lo + Pow2(k);
    var numbers, smalls := HitSet(all, m, lo, hi), Interval(0, h);
    forall x: nat
      ensures x in numbers ==> x in Interval(0, all)
    {
      InHitSet(all, m, lo, hi, x);
      InInterval(0, all, x);
    }
    forall x, small | x in Interval(0, all) && small in smalls
      ensures Pick(l, x % m, small, n, k) == v <==> x in numbers
    {
      QuotientIs(x % m, k, v - h);
      InHitSet(all, m, lo, hi, x);
      InInterval(0, all, x);
      InInterval(0, h, small);
      SmallDiffers(v, l, x % m, small, n, k);
    }
    HitSetSize(all, m, lo, hi);
    IntervalSize(0, h);
    KeyWaysAre(v, l, n, k, w, numbers, smalls);
  }

  lemma KeyWaysToOld(v: nat, l: nat, n: nat, k: nat, w: nat)
    requires Width(w) && 1 <= k < w && Between(n, k) && n <= l < Pow2(k) && v < Pow2(k - 1)
    ensures |KeyWays(v, l, n, k, w)| == Reached(v, l, n, k, w)
  {
    hide Pow2, Pick, Interval, Shr, Range, NumberBits, HitSet, Hits, KeyWays;
    var all, m, h, q := Pow2(NumberBits(k, w)), Range(l), Pow2(k - 1), n - Pow2(k - 1);
    RangePositive(l);
    Room(n, k, l);
    var lo := q * Pow2(k);
    var numbers, smalls := HitSet(all, m, lo, m), {v};
    forall x: nat
      ensures x in numbers ==> x in Interval(0, all)
    {
      InHitSet(all, m, lo, m, x);
      InInterval(0, all, x);
    }
    InInterval(0, h, v);
    forall x, small | x in Interval(0, all) && small in Interval(0, h)
      ensures Pick(l, x % m, small, n, k) == v <==> x in numbers && small in smalls
    {
      QuotientIs(x % m, k, q);
      InHitSet(all, m, lo, m, x);
      InInterval(0, all, x);
      InInterval(0, h, small);
      SmallDiffers(v, l, x % m, small, n, k);
    }
    HitSetSize(all, m, lo, m);
    KeyWaysAre(v, l, n, k, w, numbers, smalls);
  }

  // ---- the size of a basket ----

  /** The sum of what the baskets of the large scheme from n below m contribute. */
  function ReachedBelow(v: nat, n: nat, k: nat, w: nat, m: nat): nat
    requires Width(w) && 1 <= k < w && Between(n, k) && v < n && m <= Pow2(k)
  {
    if m <= n then 0 else ReachedBelow(v, n, k, w, m - 1) + Reached(v, m - 1, n, k, w)
  }

  /** The keys of basket v that the large scheme sends to n or above, below m. */
  ghost function Lowered(v: nat, n: nat, k: nat, w: nat, m: nat): set<Key>
    requires Width(w) && 1 <= n <= Pow2(w - 1)
  {
    set key | key in Keys(w, Pow2(w)) && Hash(key, n, w) == Basket(v) && n <= Hash2(key, k) < m
  }

  lemma HashOfMover(key: Key, v: nat, n: nat, k: nat, w: nat)
    requires Width(w) && 2 <= n <= Pow2(w - 1) && k == Log2(n - 1) + 1 && k < w && Hash2(key, k) >= n
    ensures Hash(key, n, w) == Basket(v)
       <==> Pick(Hash2(key, k), GetAsteriskBits(key, k, w) % Range(Hash2(key, k)), Hash2(key, k - 1), n, k) == v
  {
    hide Pow2, Hash, Hash2, GetAsteriskBits, Pick, Log2, Range;
    HashIsPick(key, n, k, w);
  }

  lemma {:induction false} LoweredSize(v: nat, n: nat, k: nat, w: nat, m: nat)
    requires Width(w) && 2 <= n <= Pow2(w - 1) && k == Log2(n - 1) + 1 && k < w && Between(n, k)
    requires v < n && m <= Pow2(k)
    ensures |Lowered(v, n, k, w, m)| == Weight(k, w) * ReachedBelow(v, n, k, w, m)
  {
    hide Pow2, Hash, Hash2, Keys, Log2, Weight, Reached, GetAsteriskBits, Between, Kept;
    if m <= n {
      assert Lowered(v, n, k, w, m) == {};
    } else {
      LoweredSize(v, n, k, w, m - 1);
      LoweredLast(v, n, k, w, m - 1);
      var head, last := Lowered(v, n, k, w, m - 1), Movers(v, m - 1, n, k, w);
      LoweredSplit(v, n, k, w, m);
      MulDist(Weight(k, w), ReachedBelow(v, n, k, w, m - 1), Reached(v, m - 1, n, k, w));
    }
  }

  lemma LoweredLast(v: nat, n: nat, k: nat, w: nat, l: nat)
    requires Width(w) && 2 <= n && 1 <= k < w && Between(n, k) && v < n <= l < Pow2(k)
    ensures |Movers(v, l, n, k, w)| == Weight(k, w) * Reached(v, l, n, k, w)
  {
    hide Pow2, Movers, KeyWays, Reached, Weight, Kept;
    MoversSize(v, l, n, k, w);
    if v >= Pow2(k - 1) {
      KeyWaysToNew(v, l, n, k, w);
    } else {
      KeyWaysToOld(v, l, n, k, w);
    }
  }

  lemma LoweredSplit(v: nat, n: nat, k: nat, w: nat, m: nat)
    requires Width(w) && 2 <= n <= Pow2(w - 1) && k == Log2(n - 1) + 1 && k < w && v < n < m <= Pow2(k)
    ensures |Lowered(v, n, k, w, m)| == |Lowered(v, n, k, w, m - 1)| + |Movers(v, m - 1, n, k, w)|
  {
    hide Pow2, Hash, Hash2, Keys, Log2, GetAsteriskBits, Pick, Range;
    var head, last := Lowered(v, n, k, w, m - 1), Movers(v, m - 1, n, k, w);
    forall key | key in Keys(w, Pow2(w)) && Hash2(key, k) == m - 1
      ensures key in last <==> Hash(key, n, w) == Basket(v)
    {
      HashOfMover(key, v, n, k, w);
    }
    assert Lowered(v, n, k, w, m) == head + last && head !! last;
  }

  lemma BlockOf(n: nat, w: nat)
    requires Width(w) && 2 <= n <= Pow2(w - 1)
    ensures Log2(n - 1) + 1 < w && Between(n, Log2(n - 1) + 1)
  {
    hide Pow2, Log2;
    LogBelow(n - 1, w - 1);
  }

  /** The exact number of keys in a basket, for every number of baskets. */
  lemma BasketSize(v: nat, n: nat, w: nat)
    requires Width(w) && 2 <= n <= Pow2(w - 1) && v < n
    ensures var k := Log2(n - 1) + 1;
      && k < w && Between(n, k)
      && |BasketKeys(n, w, v)| == Pow2(4 * w - k) + Weight(k, w) * ReachedBelow(v, n, k, w, Pow2(k))
  {
    hide Pow2, Hash, Hash2, Keys, Log2, Weight, ReachedBelow, Between;
    BlockOf(n, w);
    var k := Log2(n - 1) + 1;
    LoweredSize(v, n, k, w, Pow2(k));
    BasketParts(v, n, k, w);
    BelowPower(n, k);
    PowerBalance(v, k, w, Pow2(w));
    Pow2Add(w, 3 * w - k);
  }

  lemma BelowPower(n: nat, k: nat)
    requires Between(n, k)
    ensures n <= Pow2(k)
  {
    hide Pow2;
  }

  lemma BasketParts(v: nat, n: nat, k: nat, w: nat)
    requires Width(w) && 2 <= n <= Pow2(w - 1) && k == Log2(n - 1) + 1 && v < n
    ensures |BasketKeys(n, w, v)| == |Basket2(v, k, w, Pow2(w))| + |Lowered(v, n, k, w, Pow2(k))|
  {
    hide Pow2, Hash, Hash2, Keys, Log2;
    var direct, lowered := Basket2(v, k, w, Pow2(w)), Lowered(v, n, k, w, Pow2(k));
    forall key | key in Keys(w, Pow2(w))
      ensures Hash2(key, k) < Pow2(k)
      ensures Hash2(key, k) < n ==> Hash(key, n, w) == Basket(Hash2(key, k))
    {
      Hash2Range(key, k);
      DirectHash(key, n, k, w);
    }
    assert BasketKeys(n, w, v) == direct + lowered && direct !! lowered;
  }

  lemma DirectHash(key: Key, n: nat, k: nat, w: nat)
    requires Width(w) && 2 <= n <= Pow2(w - 1) && k == Log2(n - 1) + 1
    ensures Hash2(key, k) < n ==> Hash(key, n, w) == Basket(Hash2(key, k))
  {
    hide Pow2, Hash, Hash2, Log2, GetAsteriskBits, Range;
    HashIsPick(key, n, k, w);
  }

  // ---- how even that is ----

  predicate Near(x: int, y: int, bound: int) {
    y - bound <= x <= y + bound
  }

  function Least(a: nat, b: nat): nat {
    if a <= b then a else b
  }

  lemma ScaleNear(x: int, y: int, bound: int, h: nat)
    requires Near(x, y, bound)
    ensures Near(x * h, y * h, bound * h)
  {
    MulMonotone(h, x, y + bound);
    MulMonotone(h, y - bound, x);
    MulDistRight(y, bound, h);
    MulDistRight(y, -bound, h);
  }

  /** A part of the last range is no more than the range or the part itself. */
  lemma PartOfRange(r: nat, len: nat, m: nat)
    requires r < m && len <= m
    ensures 0 <= r * len <= m * Least(len, r)
  {
    MulMonotone(len, r, m);
    MulMonotone(r, len, m);
    MulMonotone(r, 0, len);
  }

  lemma ClampSmall(r: nat, lo: nat, hi: nat)
    requires lo <= hi
    ensures 0 <= Clamp(r, lo, hi) <= Least(hi - lo, r)
  {
  }

  /** Of all numbers, reduced modulo m, an interval gets its share up to what is left of the
      last, incomplete range. */
  lemma HitsNear(all: nat, m: nat, lo: nat, hi: nat)
    requires m > 0 && lo <= hi <= m
    ensures Near(m * Hits(all, m, lo, hi), all * (hi - lo), m * Least(hi - lo, all % m))
  {
    hide Clamp, Least, Near;
    var q, r, len := all / m, all % m, hi - lo;
    PartOfRange(r, len, m);
    ClampSmall(r, lo, hi);
    WholeAndPart(all, m, q, r, len, Hits(all, m, lo, hi), Clamp(r, lo, hi), Least(len, r));
  }

  lemma WholeAndPart(all: int, m: int, q: int, r: int, len: int, hits: int, part: int, least: int)
    requires m > 0 && all == m * q + r && hits == q * len + part
    requires 0 <= part <= least && 0 <= r * len <= m * least
    ensures Near(m * hits, all * len, m * least)
  {
    MulMonotone(m, 0, part);
    MulMonotone(m, part, least);
    MulDist(m, q * len, part);
    MulAssoc(m, q, len);
    MulDistRight(m * q, r, len);
  }

  /** How far the combinations that lead from l to v can be from their share: those of the last,
      incomplete range of numbers, or all if they are fewer. */
  function Slack(v: nat, l: nat, n: nat, k: nat, w: nat): nat
    requires Width(w) && 1 <= k < w && Between(n, k) && n <= l < Pow2(k) && v < n
  {
    hide Pow2, NumberBits, Range;
    Room(n, k, l);
    RangePositive(l);
    var rest, h := Pow2(NumberBits(k, w)) % Range(l), Pow2(k - 1);
    if v >= h then Least(Pow2(k), rest) * h else Least(Range(l) - (n - h) * Pow2(k), rest)
  }

  lemma ReachedNear(v: nat, l: nat, n: nat, k: nat, w: nat)
    requires Width(w) && 1 <= k < w && Between(n, k) && n <= l < Pow2(k) && v < n
    ensures Near(Range(l) * Reached(v, l, n, k, w), Pow2(NumberBits(k, w)) * |Ways(v, l, n, k)|,
                 Range(l) * Slack(v, l, n, k, w))
  {
    hide Pow2, Range, NumberBits, Hits, Ways, Near, Least;
    RangePositive(l);
    Room(n, k, l);
    var all, m, h := Pow2(NumberBits(k, w)), Range(l), Pow2(k - 1);
    if v >= h {
      WaysToNew(v, l, n, k);
      var lo := NewNumbers(v, n, k, l);
      HitsNear(all, m, lo, lo + Pow2(k));
      var hits, least := Hits(all, m, lo, lo + Pow2(k)), Least(Pow2(k), all % m);
      ScaleNear(m * hits, all * Pow2(k), m * least, h);
      MulAssoc(m, hits, h);
      MulAssoc(all, Pow2(k), h);
      MulAssoc(m, least, h);
    } else {
      WaysToOld(v, l, n, k);
      HitsNear(all, m, (n - h) * Pow2(k), m);
    }
  }

  // The ideal share is a fraction; what follows carries the bound over to it.

  predicate Within(x: real, y: real, bound: real) {
    -bound <= x - y <= bound
  }

  lemma NearIsWithin(x: int, y: int, bound: int)
    ensures Near(x, y, bound) <==> Within(x as real, y as real, bound as real)
  {
    assert (x - y) as real == x as real - y as real;
    assert (-bound) as real == -(bound as real);
  }

  lemma RealTimes(a: real, b: real, c: real)
    requires a <= b && c >= 0.0
    ensures a * c <= b * c
  {
    assert (b - a) * c >= 0.0;
  }

  lemma RealCancel(a: real, b: real, m: real)
    requires m > 0.0 && a * m <= b * m
    ensures a <= b
  {
  }

  lemma RealDist(a: real, b: real, m: real)
    ensures (a + b) * m == a * m + b * m
  {
  }

  lemma CancelWithin(x: real, y: real, bound: real, m: real, xm: real, ym: real, boundm: real)
    requires m > 0.0 && xm == x * m && ym == y * m && boundm == bound * m && Within(xm, ym, boundm)
    ensures Within(x, y, bound)
  {
    RealDist(y, bound, m);
    RealCancel(x, y + bound, m);
    RealDist(x, bound, m);
    RealCancel(y, x + bound, m);
  }

  lemma ScaleWithin(x: real, y: real, bound: real, m: real, xm: real, ym: real, boundm: real)
    requires m > 0.0 && xm == x * m && ym == y * m && boundm == bound * m && Within(x, y, bound)
    ensures Within(xm, ym, boundm)
  {
    RealDist(y, bound, m);
    RealTimes(x, y + bound, m);
    RealDist(x, bound, m);
    RealTimes(y, x + bound, m);
  }

  /** All keys of one basket of the large scheme are its combinations, each with the same weight. */
  lemma WeightTimes(k: nat, w: nat)
    requires Width(w) && 1 <= k < w
    ensures Weight(k, w) * Pow2(NumberBits(k, w)) * Pow2(k - 1) == Pow2(4 * w - k)
  {
    hide Pow2, Kept;
    KeptFits(k, w);
    Pow2Add(2 * w - 1 - Kept(k, w), NumberBits(k, w));
    Pow2Add(4 * w - 2 * k + 1, k - 1);
  }

  lemma IdealTimes(ca: real, h: real, given: real, m: real, ways: real)
    requires given * (m * h) == ways
    ensures (ca * h) * given * m == ca * ways
  {
    var mh := m * h;
    assert (ca * h) * given * m == ca * (given * mh);
  }

  lemma ScaleCounts(c: nat, all: nat, m: nat, ways: nat, reached: nat, slack: nat)
    requires Near(m * reached, all * ways, m * slack)
    ensures Near((c * reached) * m, (c * all) * ways, (c * slack) * m)
  {
    hide Near;
    ScaleNear(m * reached, all * ways, m * slack, c);
    assert (m * reached) * c == (c * reached) * m;
    assert (all * ways) * c == (c * all) * ways;
    assert (m * slack) * c == (c * slack) * m;
  }

  /** A weighted count is near a share of g. */
  predicate NearPart(g: nat, c: nat, count: nat, slack: nat, given: real) {
    Within((c * count) as real, g as real * given, (c * slack) as real)
  }

  /** And so is its sum with g itself. */
  predicate NearTotal(g: nat, c: nat, count: nat, slack: nat, total: real) {
    Within((g + c * count) as real, g as real * total, (c * slack) as real)
  }

  lemma WithinCounts(g: nat, c: nat, all: nat, m: nat, h: nat, ways: nat, reached: nat, slack: nat, given: real)
    requires m > 0 && h > 0 && g == c * all * h && Near(m * reached, all * ways, m * slack)
    requires given * (m as real * (h as real)) == ways as real
    ensures NearPart(g, c, reached, slack, given)
  {
    hide Near, Within, NearPart;
    ScaleCounts(c, all, m, ways, reached, slack);
    var xm, ym, boundm := (c * reached) * m, (c * all) * ways, (c * slack) * m;
    var x, y, bound := (c * reached) as real, g as real * given, (c * slack) as real;
    NearIsWithin(xm, ym, boundm);
    RealProduct(c * reached, m);
    RealProduct(c * slack, m);
    RealProduct(c * all, ways);
    RealProduct(c * all, h);
    IdealTimes((c * all) as real, h as real, given, m as real, ways as real);
    CancelWithin(x, y, bound, m as real, xm as real, ym as real, boundm as real);
    PartIs(g, c, reached, slack, given, y);
  }

  lemma PartIs(g: nat, c: nat, count: nat, slack: nat, given: real, ideal: real)
    requires ideal == g as real * given && Within((c * count) as real, ideal, (c * slack) as real)
    ensures NearPart(g, c, count, slack, given)
  {
  }

  lemma GivenIs(v: nat, l: nat, n: nat, k: nat)
    requires Between(n, k) && n <= l
    ensures Range(l) > 0
    ensures Given(v, l, n, k) * (Range(l) as real * (Pow2(k - 1) as real)) == |Ways(v, l, n, k)| as real
  {
    hide Pow2, Ways, Range;
    RangePositive(l);
    RealRange(l);
  }

  lemma RealRange(l: nat)
    ensures Range(l) as real == (l as real) * (l as real + 1.0)
  {
    RealProduct(l, l + 1);
  }

  /** The keys that l adds to v are its ideal share up to the slack. */
  lemma StepNear(v: nat, l: nat, n: nat, k: nat, w: nat)
    requires Width(w) && 1 <= k < w && Between(n, k) && n <= l < Pow2(k) && v < n
    ensures NearPart(Pow2(4 * w - k), Weight(k, w), Reached(v, l, n, k, w), Slack(v, l, n, k, w), Given(v, l, n, k))
  {
    hide Pow2, Reached, Slack, NumberBits, Ways, Weight, Range, Given, Near, NearPart;
    ReachedNear(v, l, n, k, w);
    WeightTimes(k, w);
    GivenIs(v, l, n, k);
    WithinCounts(Pow2(4 * w - k), Weight(k, w), Pow2(NumberBits(k, w)), Range(l), Pow2(k - 1), |Ways(v, l, n, k)|,
                 Reached(v, l, n, k, w), Slack(v, l, n, k, w), Given(v, l, n, k));
  }

  /** The sum of the slacks of the baskets of the large scheme from n below m. */
  function SlackBelow(v: nat, n: nat, k: nat, w: nat, m: nat): nat
    requires Width(w) && 1 <= k < w && Between(n, k) && v < n && m <= Pow2(k)
  {
    if m <= n then 0 else SlackBelow(v, n, k, w, m - 1) + Slack(v, m - 1, n, k, w)
  }

  /** The same for the sum over all baskets of the large scheme from n on. */
  lemma {:induction false} SumNear(v: nat, n: nat, k: nat, w: nat, m: nat)
    requires Width(w) && 1 <= k < w && Between(n, k) && v < n <= m <= Pow2(k)
    ensures NearTotal(Pow2(4 * w - k), Weight(k, w), ReachedBelow(v, n, k, w, m), SlackBelow(v, n, k, w, m),
                      Total(v, n, k, m))
    decreases m
  {
    hide Pow2, Weight, Reached, Slack, Given, Between, NearPart, NearTotal;
    var g, c := Pow2(4 * w - k), Weight(k, w);
    if m == n {
      TotalBelow(v, n, k, n);
      NothingMore(g, c);
    } else {
      var x, y := ReachedBelow(v, n, k, w, m - 1), SlackBelow(v, n, k, w, m - 1);
      var dx, dy := Reached(v, m - 1, n, k, w), Slack(v, m - 1, n, k, w);
      SumNear(v, n, k, w, m - 1);
      StepNear(v, m - 1, n, k, w);
      OneMore(g, c, x, dx, y, dy, Total(v, n, k, m - 1), Given(v, m - 1, n, k));
    }
  }

  lemma NothingMore(g: nat, c: nat)
    ensures NearTotal(g, c, 0, 0, 1.0)
  {
  }

  lemma OneMore(g: nat, c: nat, x: nat, dx: nat, y: nat, dy: nat, total: real, given: real)
    requires NearTotal(g, c, x, y, total) && NearPart(g, c, dx, dy, given)
    ensures NearTotal(g, c, x + dx, y + dy, total + given)
  {
    MulDist(c, x, dx);
    MulDist(c, y, dy);
    RealDist(total, given, g as real);
  }

  /** n times the size is the number of all keys, up to n times the bound. */
  predicate EvenUpTo(size: nat, n: nat, all: nat, bound: nat) {
    Near(size * n, all, bound * n)
  }

  function Deviation(v: nat, n: nat, k: nat, w: nat): nat
    requires Width(w) && 1 <= k < w && Between(n, k) && v < n
  {
    hide Pow2, Weight, Between;
    Weight(k, w) * SlackBelow(v, n, k, w, Pow2(k))
  }

  /** How far a basket can be from its even share: by the keys of the slacks, so not at all for
      a power of two. */
  lemma EvenSpread(v: nat, n: nat, w: nat)
    requires Width(w) && 2 <= n <= Pow2(w - 1) && v < n
    ensures var k := Log2(n - 1) + 1;
      && k < w && Between(n, k)
      && EvenUpTo(|BasketKeys(n, w, v)|, n, |Keys(w, Pow2(w))|, Deviation(v, n, k, w))
  {
    hide Pow2, BasketKeys, Keys, Log2, Weight, ReachedBelow, SlackBelow, Between, Total, EvenUpTo, NearTotal, Chance;
    BasketSize(v, n, w);
    AllKeys(w);
    var k := Log2(n - 1) + 1;
    BelowPower(n, k);
    SumNear(v, n, k, w, Pow2(k));
    TotalIs(v, n, k);
    Pow2Add(4 * w - k, k);
    TotalSpread(Pow2(4 * w - k), Weight(k, w), ReachedBelow(v, n, k, w, Pow2(k)), SlackBelow(v, n, k, w, Pow2(k)),
                Pow2(k), n, Total(v, n, k, Pow2(k)));
  }

  lemma TotalIs(v: nat, n: nat, k: nat)
    requires Between(n, k) && v < n
    ensures Total(v, n, k, Pow2(k)) * (n as real) == Pow2(k) as real
  {
    hide Pow2, Total;
    EqualChances(v, n, k);
    CrossMultiply(Total(v, n, k, Pow2(k)), Pow2(k) as real, n as real);
  }

  lemma CrossMultiply(t: real, p: real, n: real)
    requires p > 0.0 && n > 0.0 && t / p == 1.0 / n
    ensures t * n == p
  {
    var x := t / p;
    assert x * p == t && x * n == 1.0;
    assert t * n == p * (x * n);
  }

  lemma IdealTotal(g: nat, total: real, n: nat, p: nat)
    requires total * (n as real) == p as real
    ensures (g as real * total) * (n as real) == (g * p) as real
  {
    RealProduct(g, p);
    var gr, nr := g as real, n as real;
    assert (gr * total) * nr == gr * (total * nr);
  }

  lemma SpreadOf(size: nat, all: nat, bound: nat, n: nat, ideal: real)
    requires n > 0 && ideal * (n as real) == all as real && Within(size as real, ideal, bound as real)
    ensures EvenUpTo(size, n, all, bound)
  {
    hide Within, Near;
    RealProduct(size, n);
    RealProduct(bound, n);
    ScaleWithin(size as real, ideal, bound as real, n as real, (size * n) as real, all as real, (bound * n) as real);
    NearIsWithin(size * n, all, bound * n);
  }

  lemma TotalSpread(g: nat, c: nat, count: nat, slack: nat, p: nat, n: nat, total: real)
    requires n > 0 && total * (n as real) == p as real && NearTotal(g, c, count, slack, total)
    ensures EvenUpTo(g + c * count, n, g * p, c * slack)
  {
    hide Within, EvenUpTo;
    IdealTotal(g, total, n, p);
    SpreadOf(g + c * count, g * p, c * slack, n, g as real * total);
  }

  /** One range has at most 2^(2k) combinations, and an old basket takes one for each number. */
  lemma OneSlack(v: nat, l: nat, n: nat, k: nat, w: nat)
    requires Width(w) && 1 <= k < w && Between(n, k) && n <= l < Pow2(k) && v < n
    ensures Slack(v, l, n, k, w) <= Pow2(2 * k)
    ensures v < Pow2(k - 1) ==> Slack(v, l, n, k, w) <= Pow2(NumberBits(k, w))
  {
    hide Pow2, Range, NumberBits;
    RangePositive(l);
    Room(n, k, l);
    Pow2Add(k, k);
    Pow2Double(k - 1);
    var p, h, all := Pow2(k), Pow2(k - 1), Pow2(NumberBits(k, w));
    MulMonotone(h, Least(p, all % Range(l)), p);
    MulMonotone(p, h, p);
    RangeBelow(l, p);
    ModBelow(all, Range(l));
  }

  lemma ModBelow(x: nat, m: nat)
    requires m > 0
    ensures x % m <= x
  {
    if x < m {
      ModSmall(x, m);
    }
  }

  lemma {:induction false} SlackSmall(v: nat, n: nat, k: nat, w: nat, m: nat)
    requires Width(w) && 1 <= k < w && Between(n, k) && v < n <= m <= Pow2(k)
    ensures SlackBelow(v, n, k, w, m) <= (m - n) * Pow2(2 * k)
    ensures v < Pow2(k - 1) ==> SlackBelow(v, n, k, w, m) <= (m - n) * Pow2(NumberBits(k, w))
    decreases m
  {
    hide Pow2, Slack, Between, NumberBits;
    if m > n {
      SlackSmall(v, n, k, w, m - 1);
      OneSlack(v, m - 1, n, k, w);
      MulDistRight(m - 1 - n, 1, Pow2(2 * k));
      MulDistRight(m - 1 - n, 1, Pow2(NumberBits(k, w)));
    }
  }

  /** The deviation is at most the weight of 2^k - n ranges of 2^(2k) combinations; for an old
      basket it is always less than an even share. */
  lemma DeviationBelow(v: nat, n: nat, k: nat, w: nat)
    requires Width(w) && 1 <= k < w && Between(n, k) && v < n
    ensures Deviation(v, n, k, w) <= Weight(k, w) * ((Pow2(k) - n) * Pow2(2 * k))
    ensures v < Pow2(k - 1) ==> n * Deviation(v, n, k, w) < Pow2(4 * w)
  {
    hide Pow2, Kept, SlackBelow, NumberBits;
    SlackSmall(v, n, k, w, Pow2(k));
    var c, slack, gap, all := Weight(k, w), SlackBelow(v, n, k, w, Pow2(k)), Pow2(k) - n, Pow2(NumberBits(k, w));
    MulMonotone(c, slack, gap * Pow2(2 * k));
    if v < Pow2(k - 1) {
      MulMonotone(c, slack, gap * all);
      WeightTimes(k, w);
      Pow2Double(k - 1);
      Pow2Add(k, 4 * w - k);
      BelowShare(c * slack, c, gap, all, Pow2(k - 1), n);
    }
  }

  lemma BelowShare(deviation: nat, c: nat, gap: nat, all: nat, h: nat, n: nat)
    requires deviation <= c * (gap * all) && gap < h && gap == 2 * h - n && 0 < c && 0 < all
    ensures n * deviation < 2 * h * (c * all * h)
  {
    Rotate(c, gap, all);
    MulMonotone(c, 1, all);
    BelowTop(deviation, c * all, gap, h, n);
  }

  lemma Rotate(a: int, b: int, c: int)
    ensures a * (b * c) == b * (a * c)
  {
    MulAssoc(a, b, c);
    MulAssoc(b, a, c);
  }

  lemma BelowTop(deviation: nat, x: nat, gap: nat, h: nat, n: nat)
    requires deviation <= gap * x && gap < h && 0 < n <= 2 * h && 0 < x
    ensures n * deviation < 2 * h * (x * h)
  {
    ScaledGap(gap, h, x);
    var y := x * h;
    MulMonotone(n, deviation, y - 1);
    MulDist(n, y, -1);
    MulMonotone(y, n, 2 * h);
  }

  lemma RangeBelow(l: nat, p: nat)
    requires l < p
    ensures Range(l) <= p * p
  {
    MulMonotone(l, l + 1, p);
    MulMonotone(p, l, p);
  }

  // ---- where the spread is not even ----

  /** In these blocks the number is below every range, though it has k bits or more. */
  predicate Short(k: nat, w: nat)
    requires Width(w) && 1 <= k < w
  {
    k <= NumberBits(k, w) <= 2 * k - 2
  }

  lemma ReachedNone(v: nat, l: nat, n: nat, k: nat, w: nat)
    requires Width(w) && 1 <= k < w && Short(k, w) && Between(n, k) && n <= l < Pow2(k)
    requires Pow2(k - 1) + Pow2(NumberBits(k, w) - k) <= v < n
    ensures Reached(v, l, n, k, w) == 0
  {
    hide Pow2, Range, Hits, NumberBits;
    var bits, h := NumberBits(k, w), Pow2(k - 1);
    RangePositive(l);
    var all, m, lo := Pow2(bits), Range(l), Pow2(k) * (v - h);
    Pow2Add(k, bits - k);
    MulMonotone(Pow2(k), Pow2(bits - k), v - h);
    Pow2Add(k - 1, k - 1);
    Pow2Monotone(bits, 2 * k - 2);
    RangeAbove(l, h);
    NoHits(all, m, lo, lo + Pow2(k));
  }

  lemma RangeAbove(l: nat, p: nat)
    requires p <= l
    ensures Range(l) >= p * p + l
  {
    MulMonotone(l, p, l);
    MulMonotone(p, p, l);
    MulDist(l, l, 1);
  }

  lemma NoHits(r: nat, m: nat, lo: nat, hi: nat)
    requires r < m && r <= lo <= hi
    ensures Hits(r, m, lo, hi) == 0
  {
    ModSmall(r, m);
  }

  lemma {:induction false} ReachedNever(v: nat, n: nat, k: nat, w: nat, m: nat)
    requires Width(w) && 1 <= k < w && Short(k, w) && Between(n, k) && m <= Pow2(k)
    requires Pow2(k - 1) + Pow2(NumberBits(k, w) - k) <= v < n
    ensures ReachedBelow(v, n, k, w, m) == 0
  {
    hide Pow2, Reached, Between, NumberBits;
    if m > n {
      ReachedNever(v, n, k, w, m - 1);
      ReachedNone(v, m - 1, n, k, w);
    }
  }

  /** Blocks 2^13 to 2^15 of the 16-bit hash and 2^24 to 2^31 of the 32-bit hash are short. */
  lemma ShortBlocks(k: nat, w: nat)
    requires Width(w) && 1 <= k < w
    ensures Short(k, w) <==> k >= (if w == 16 then 14 else 25)
  {
  }

  /** In a short block every basket that the number cannot reach receives only the keys the
      large scheme sends there: less than an even share. */
  lemma LateBaskets(v: nat, n: nat, k: nat, w: nat)
    requires Width(w) && 1 <= k < w && Short(k, w) && Between(n, k) && n < Pow2(k)
    requires Pow2(k - 1) + Pow2(NumberBits(k, w) - k) <= v < n
    ensures 1 <= n <= Pow2(w - 1)
    ensures |BasketKeys(n, w, v)| == Pow2(4 * w - k) && n * |BasketKeys(n, w, v)| < |Keys(w, Pow2(w))|
  {
    hide Pow2, BasketKeys, Keys, Log2, Weight, ReachedBelow, NumberBits;
    Pow2Monotone(k, w - 1);
    Log2Unique(n - 1, k - 1);
    BasketSize(v, n, w);
    ReachedNever(v, n, k, w, Pow2(k));
    AllKeys(w);
    Pow2Add(k, 4 * w - k);
    ScaledGap(n, Pow2(k), Pow2(4 * w - k));
  }
}
