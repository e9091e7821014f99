/** Sizes of finite sets: residue classes, bijections, products. */
module Counting {
  import opened Arithmetic

  /** Values from t upwards, in q whole windows of length n, with residue r. */
  ghost function Residues(t: nat, n: nat, q: nat, r: nat): set<nat>
    requires n > 0
  {
    set x: nat | x < t + n * q && t <= x && x % n == r
  }

  lemma FirstResidue(w: nat, n: nat, r: nat) returns (x: nat)
    requires n > 0 && r < n
    ensures w <= x < w + n && x % n == r
  {
    var q, s := w / n, w % n;
    if s <= r {
      x := w - s + r;
      DivModUnique(x, n, q, r);
    } else {
      x := w - s + r + n;
      MulDist(n, q, 1);
      DivModUnique(x, n, q + 1, r);
    }
  }

  /** A window of length n holds exactly one value with a given residue. */
  lemma OneInWindow(w: nat, n: nat, r: nat) returns (x: nat)
    requires n > 0 && r < n
    ensures w <= x < w + n && x % n == r
    ensures forall y: nat | w <= y < w + n && y % n == r :: y == x
  {
    x := FirstResidue(w, n, r);
    forall y: nat | w <= y < w + n && y % n == r
      ensures y == x
    {
      if x < y {
        CloseResidues(x, y, n);
      } else if y < x {
        CloseResidues(y, x, n);
      }
    }
  }

  /** Different numbers with the same residue are at least the modulus apart. */
  lemma CloseResidues(x: nat, y: nat, n: nat)
    requires n > 0 && x % n == y % n && x < y
    ensures x + n <= y
  {
    var i, j := x / n, y / n;
    assert x == n * i + x % n && y == n * j + y % n;
    if j <= i {
      MulMonotone(n, j, i);
    } else {
      MulMonotone(n, i + 1, j);
      MulDist(n, i, 1);
    }
  }

  lemma {:induction false} ResiduesSize(t: nat, n: nat, q: nat, r: nat)
    requires n > 0 && r < n
    ensures |Residues(t, n, q, r)| == q
  {
    if q == 0 {
      assert Residues(t, n, 0, r) == {};
    } else {
      ResiduesSize(t, n, q - 1, r);
      MulDist(n, q - 1, 1);
      var x := OneInWindow(t + n * (q - 1), n, r);
      assert Residues(t, n, q, r) == Residues(t, n, q - 1, r) + {x};
    }
  }

  /** The numbers below m with residue r modulo n. */
  ghost function Class(m: nat, n: nat, r: nat): set<nat>
    requires n > 0
  {
    set x: nat | x < m && x % n == r
  }

  lemma ClassSize(n: nat, q: nat, r: nat)
    requires n > 0 && r < n
    ensures |Class(n * q, n, r)| == q
  {
    ResiduesSize(0, n, q, r);
    assert Class(n * q, n, r) == Residues(0, n, q, r);
  }

  ghost function Pairs<X(!new), Y(!new)>(a: set<X>, b: set<Y>): set<(X, Y)> {
    set x, y | x in a && y in b :: (x, y)
  }

  lemma {:induction false} PairsSize<X(!new), Y(!new)>(a: set<X>, b: set<Y>)
    ensures |Pairs(a, b)| == |a| * |b|
  {
    if a == {} {
      assert Pairs(a, b) == {};
    } else {
      var x :| x in a;
      var rest := a - {x};
      PairsSize(rest, b);
      FirstRow(a, b, x);
      RowSize(x, b);
      assert |a| == |rest| + 1;
      MulDistRight(|rest|, 1, |b|);
    }
  }

  ghost function Row<X(!new), Y(!new)>(x: X, b: set<Y>): set<(X, Y)> {
    set y | y in b :: (x, y)
  }

  lemma FirstRow<X(!new), Y(!new)>(a: set<X>, b: set<Y>, x: X)
    requires x in a
    ensures |Pairs(a, b)| == |Pairs(a - {x}, b)| + |Row(x, b)|
  {
    assert Pairs(a, b) == Pairs(a - {x}, b) + Row(x, b) && Pairs(a - {x}, b) !! Row(x, b);
  }

  lemma RowSize<X(!new), Y(!new)>(x: X, b: set<Y>)
    ensures |Row(x, b)| == |b|
  {
    var f: Y -> (X, Y) := y => (x, y);
    assert Into(b, Row(x, b), f) && Injective(b, f) && Onto(b, Row(x, b), f);
    SameSize(b, Row(x, b), f);
  }

  ghost predicate Into<X(!new), Y(!new)>(a: set<X>, b: set<Y>, f: X -> Y) {
    forall x | x in a :: f(x) in b
  }

  ghost predicate Onto<X(!new), Y(!new)>(a: set<X>, b: set<Y>, f: X -> Y) {
    forall y | y in b :: exists x :: x in a && f(x) == y
  }

  ghost predicate Injective<X(!new), Y(!new)>(a: set<X>, f: X -> Y) {
    forall x, y | x in a && y in a && f(x) == f(y) :: x == y
  }

  lemma RemoveInto<X(!new), Y(!new)>(a: set<X>, b: set<Y>, f: X -> Y, x: X)
    requires x in a && Into(a, b, f) && Injective(a, f)
    ensures Into(a - {x}, b - {f(x)}, f) && Injective(a - {x}, f)
  {
  }

  lemma RemoveOnto<X(!new), Y(!new)>(a: set<X>, b: set<Y>, f: X -> Y, x: X)
    requires x in a && Onto(a, b, f)
    ensures Onto(a - {x}, b - {f(x)}, f)
  {
    forall y | y in b - {f(x)}
      ensures exists x' :: x' in a - {x} && f(x') == y
    {
      var x' :| x' in a && f(x') == y;
      assert x' in a - {x};
    }
  }

  /** A bijection keeps the number of elements. */
  lemma {:induction false} SameSize<X(!new), Y(!new)>(a: set<X>, b: set<Y>, f: X -> Y)
    requires Into(a, b, f) && Injective(a, f) && Onto(a, b, f)
    ensures |a| == |b|
    decreases a, 1
  {
    if a == {} {
      assert b == {};
    } else {
      var x :| x in a;
      SameSizeStep(a, b, f, x);
    }
  }

  lemma {:induction false} SameSizeStep<X(!new), Y(!new)>(a: set<X>, b: set<Y>, f: X -> Y, x: X)
    requires x in a && Into(a, b, f) && Injective(a, f) && Onto(a, b, f)
    ensures |a| == |b|
    decreases a, 0
  {
    hide Injective, Onto;
    RemoveInto(a, b, f, x);
    RemoveOnto(a, b, f, x);
    SameSize(a - {x}, b - {f(x)}, f);
    assert a == (a - {x}) + {x} && b == (b - {f(x)}) + {f(x)};
  }

  /** The elements of z whose value under g is y, or lies in t. */
  ghost function WithValue<X(!new), Y(!new)>(z: set<X>, g: X -> Y, y: Y): set<X> {
    set x | x in z && g(x) == y
  }

  ghost function WithValues<X(!new), Y(!new)>(z: set<X>, g: X -> Y, t: set<Y>): set<X> {
    set x | x in z && g(x) in t
  }

  /** When every value in t is taken c times, c * |t| elements have a value in t. */
  lemma {:induction false} FiberSum<X(!new), Y(!new)>(z: set<X>, g: X -> Y, t: set<Y>, c: nat)
    requires forall y | y in t :: |WithValue(z, g, y)| == c
    ensures |WithValues(z, g, t)| == c * |t|
    decreases t
  {
    if t == {} {
      assert WithValues(z, g, t) == {};
    } else {
      var y :| y in t;
      var rest := t - {y};
      FiberSum(z, g, rest, c);
      var others, here := WithValues(z, g, rest), WithValue(z, g, y);
      assert WithValues(z, g, t) == others + here && others !! here;
      assert |t| == |rest| + 1;
      MulDist(c, |rest|, 1);
    }
  }

  /** The numbers below r whose remainder modulo m lies between lo and hi. */
  ghost function HitSet(r: nat, m: nat, lo: nat, hi: nat): set<nat>
    requires m > 0
  {
    set x: nat | x < r && lo <= x % m < hi
  }

  /** How much of the interval from lo to hi lies below r. */
  function Clamp(r: nat, lo: nat, hi: nat): nat
    requires lo <= hi
  {
    if r <= lo then 0 else if r >= hi then hi - lo else r - lo
  }

  /** Their number. */
  function Hits(r: nat, m: nat, lo: nat, hi: nat): nat
    requires m > 0 && lo <= hi
  {
    DivNonneg(r, m);
    (r / m) * (hi - lo) + Clamp(r % m, lo, hi)
  }

  lemma HitSetBelow(r: nat, m: nat, lo: nat, hi: nat)
    requires lo <= hi <= m && r <= m && m > 0
    ensures |HitSet(r, m, lo, hi)| == Clamp(r, lo, hi)
  {
    var top := if r <= lo then lo else if r >= hi then hi else r;
    ResiduesSize(lo, 1, top - lo, 0);
    forall x: nat
      ensures x in HitSet(r, m, lo, hi) <==> lo <= x < top
    {
      if x < r {
        ModSmall(x, m);
      }
    }
    assert HitSet(r, m, lo, hi) == Residues(lo, 1, top - lo, 0);
  }

  lemma {:induction false} HitSetSize(r: nat, m: nat, lo: nat, hi: nat)
    requires lo <= hi <= m && m > 0
    ensures |HitSet(r, m, lo, hi)| == Hits(r, m, lo, hi)
    decreases r
  {
    hide Clamp;
    if r < m {
      HitSetBelow(r, m, lo, hi);
      ModSmall(r, m);
    } else {
      HitSetSize(r - m, m, lo, hi);
      HitSetBelow(m, m, lo, hi);
      ClampAll(m, lo, hi);
      HitSplit(r, m, lo, hi);
      ModAddMultiple(r - m, 1, m);
      MulDistRight((r - m) / m, 1, hi - lo);
    }
  }

  lemma ClampAll(m: nat, lo: nat, hi: nat)
    requires lo <= hi <= m
    ensures Clamp(m, lo, hi) == hi - lo
  {
  }

  lemma InHitSet(r: nat, m: nat, lo: nat, hi: nat, x: nat)
    requires m > 0
    ensures x in HitSet(r, m, lo, hi) <==> x < r && lo <= x % m < hi
  {
  }

  /** Moving up by m keeps the remainder. */
  lemma HitShift(r: nat, m: nat, lo: nat, hi: nat, x: nat)
    requires 0 < m <= r
    ensures x in HitSet(r - m, m, lo, hi) <==> x + m in HitSet(r, m, lo, hi)
  {
    hide HitSet;
    ModAddMultiple(x, 1, m);
    InHitSet(r - m, m, lo, hi, x);
    InHitSet(r, m, lo, hi, x + m);
  }

  ghost function From(s: set<nat>, m: nat): set<nat> {
    set x: nat | x in s && m <= x
  }

  lemma HitMoved(r: nat, m: nat, lo: nat, hi: nat)
    requires 0 < m <= r
    ensures |From(HitSet(r, m, lo, hi), m)| == |HitSet(r - m, m, lo, hi)|
  {
    hide HitSet;
    var moved, rest := HitSet(r - m, m, lo, hi), From(HitSet(r, m, lo, hi), m);
    var f := (x: nat) => x + m;
    forall x | x in moved
      ensures f(x) in rest
    {
      HitShift(r, m, lo, hi, x);
    }
    forall y | y in rest
      ensures exists x :: x in moved && f(x) == y
    {
      HitShift(r, m, lo, hi, y - m);
      assert y - m in moved && f(y - m) == y;
    }
    assert Into(moved, rest, f) && Onto(moved, rest, f) && Injective(moved, f);
    SameSize(moved, rest, f);
  }

  /** The first m numbers, and the others moved down by m. */
  lemma HitSplit(r: nat, m: nat, lo: nat, hi: nat)
    requires 0 < m <= r
    ensures |HitSet(r, m, lo, hi)| == |HitSet(m, m, lo, hi)| + |HitSet(r - m, m, lo, hi)|
  {
    hide HitSet;
    var all, first := HitSet(r, m, lo, hi), HitSet(m, m, lo, hi);
    forall x: nat
      ensures x in first <==> x in all && x < m
    {
      InHitSet(r, m, lo, hi, x);
      InHitSet(m, m, lo, hi, x);
    }
    assert all == first + From(all, m) && first !! From(all, m);
    HitMoved(r, m, lo, hi);
  }
}
