/** Powers of two and the few facts about Euclidean division and remainder that
    the other modules build on. Machine integers are modelled as naturals below
    a modulus, so wrap-around is always written out as `% m`. */
module Arithmetic {

  function Pow2(n: nat): (p: nat)
    ensures p > 0
  {
    if n == 0 then 1 else 2 * Pow2(n - 1)
  }

  lemma {:induction false} Pow2Add(a: nat, b: nat)
    ensures Pow2(a + b) == Pow2(a) * Pow2(b)
  {
    if a > 0 {
      Pow2Add(a - 1, b);
      MulAssoc(2, Pow2(a - 1), Pow2(b));
    }
  }

  lemma Pow2Zero()
    ensures Pow2(0) == 1
  {
  }

  lemma Pow2Double(n: nat)
    ensures Pow2(n + 1) == 2 * Pow2(n)
  {
  }

  lemma {:induction false} Pow2Monotone(a: nat, b: nat)
    requires a <= b
    ensures Pow2(a) <= Pow2(b)
  {
    if a < b {
      Pow2Monotone(a, b - 1);
    }
  }

  function Power(base: nat, n: nat): nat {
    if n == 0 then 1 else base * Power(base, n - 1)
  }

  lemma MulAssoc(a: int, b: int, c: int)
    ensures (a * b) * c == a * (b * c)
  {
  }

  lemma MulDist(a: int, b: int, c: int)
    ensures a * (b + c) == a * b + a * c
  {
  }

  lemma MulDistRight(a: int, b: int, c: int)
    ensures (a + b) * c == a * c + b * c
  {
  }

  lemma MulMonotone(a: int, x: int, y: int)
    requires 0 <= a && x <= y
    ensures a * x <= a * y
  {
  }

  lemma ScaledGap(a: int, b: int, w: int)
    requires a < b && 0 < w
    ensures a * w + w <= b * w
  {
    MulMonotone(w, a + 1, b);
  }

  /** Quotient and remainder are unique. */
  lemma DivModUnique(x: int, d: int, q: int, r: int)
    requires d > 0 && 0 <= r < d && x == d * q + r
    ensures x / d == q && x % d == r
  {
    var q', r' := x / d, x % d;
    assert x == d * q' + r';
    if q < q' {
      MulMonotone(d, q + 1, q');
    } else if q' < q {
      MulMonotone(d, q' + 1, q);
    }
  }

  lemma ModSmall(x: int, m: int)
    requires 0 <= x < m
    ensures x % m == x && x / m == 0
  {
    DivModUnique(x, m, 0, x);
  }

  /** Adding a multiple of the modulus does not change the remainder. */
  lemma ModAddMultiple(x: int, k: int, m: int)
    requires m > 0
    ensures (x + m * k) % m == x % m
    ensures (x + m * k) / m == x / m + k
  {
    var q, r := x / m, x % m;
    assert x == m * q + r;
    assert x + m * k == m * (q + k) + r;
    DivModUnique(x + m * k, m, q + k, r);
  }

  /** Two numbers have the same remainder when they differ by a multiple of m. */
  lemma ModSame(x: int, y: int, k: int, m: int)
    requires m > 0 && x == y + m * k
    ensures x % m == y % m
  {
    ModAddMultiple(y, k, m);
  }

  lemma ModAdd(x: int, y: int, m: int)
    requires m > 0
    ensures (x % m + y) % m == (x + y) % m
  {
    assert x == m * (x / m) + x % m;
    ModSame(x + y, x % m + y, x / m, m);
  }

  lemma ModSub(x: int, y: int, m: int)
    requires m > 0
    ensures (x - y % m) % m == (x - y) % m
  {
    assert y == m * (y / m) + y % m;
    assert x - y % m == (x - y) + m * (y / m);
    ModSame(x - y % m, x - y, y / m, m);
  }

  lemma ModMul(x: int, y: int, m: int)
    requires m > 0
    ensures ((x % m) * y) % m == (x * y) % m
  {
    var q, r := x / m, x % m;
    assert x == m * q + r;
    assert x * y == r * y + m * (q * y);
    ModSame(x * y, r * y, q * y, m);
  }

  /** Reducing the coefficients of an affine expression does not change its remainder. */
  lemma ModAffine(a: int, b: int, s: int, m: int)
    requires m > 0
    ensures ((a % m) * s + b % m) % m == (a * s + b) % m
    ensures ((a % m) * s + b) % m == (a * s + b) % m
  {
    var x := (a % m) * s;
    ModAdd(b, x, m);
    ModAdd(x, b, m);
    ModMul(a, s, m);
    ModAdd(a * s, b, m);
  }

  /** Reducing modulo a multiple of a, then modulo a, is reducing modulo a. */
  lemma ModMod(x: int, a: int, b: int)
    requires a > 0 && b > 0
    ensures a * b > 0
    ensures (x % (a * b)) % a == x % a
  {
    var m := a * b;
    assert x == m * (x / m) + x % m;
    assert m * (x / m) == a * (b * (x / m));
    ModSame(x, x % m, b * (x / m), a);
  }

  lemma ModPow2(x: int, k: nat, n: nat)
    requires k <= n
    ensures (x % Pow2(n)) % Pow2(k) == x % Pow2(k)
  {
    Pow2Add(k, n - k);
    ModMod(x, Pow2(k), Pow2(n - k));
  }

  lemma DivDiv(x: nat, a: nat, b: nat)
    requires a > 0 && b > 0
    ensures a * b > 0
    ensures (x / a) / b == x / (a * b)
    ensures x % (a * b) == a * ((x / a) % b) + x % a
  {
    var q, r := x / a, x % a;
    var q2, r2 := q / b, q % b;
    MulDist(a, b * q2, r2);
    MulAssoc(a, b, q2);
    MulMonotone(a, r2 + 1, b);
    MulDist(a, r2, 1);
    DivModUnique(x, a * b, q2, a * r2 + r);
  }

  lemma DivNonneg(x: nat, d: nat)
    requires d > 0
    ensures 0 <= x / d <= x
  {
    var q := x / d;
    if x < q {
      MulMonotone(d, x + 1, q);
      MulMonotone(x + 1, 1, d);
    }
  }

  lemma DivLess(x: nat, d: nat)
    requires d >= 2 && x > 0
    ensures x / d < x
  {
    var q := x / d;
    if x <= q {
      MulMonotone(d, x, q);
      MulMonotone(x, 2, d);
    }
  }

  lemma DivMonotone(x: int, y: int, d: int)
    requires d > 0 && x <= y
    ensures x / d <= y / d
  {
    var q, q' := x / d, y / d;
    if q' < q {
      MulMonotone(d, q' + 1, q);
    }
  }

  /** x / d < n exactly when x < d * n. */
  lemma DivBound(x: nat, d: nat, n: nat)
    requires d > 0 && x < d * n
    ensures 0 <= x / d < n
  {
    if n <= x / d {
      MulMonotone(d, n, x / d);
    }
  }

  /** The floor of the base-two logarithm: the index of the highest set bit. */
  function Log2(x: nat): (k: nat)
    requires x > 0
    ensures Pow2(k) <= x < Pow2(k + 1)
  {
    if x == 1 then 0 else 1 + Log2(x / 2)
  }

  lemma LogBelow(x: nat, n: nat)
    requires 0 < x < Pow2(n)
    ensures Log2(x) < n
  {
    hide Pow2, Log2;
    if n <= Log2(x) {
      Pow2Monotone(n, Log2(x));
    }
  }

  lemma Log2Unique(x: nat, k: nat)
    requires Pow2(k) <= x < Pow2(k + 1)
    ensures Log2(x) == k
  {
    hide Pow2, Log2;
    LogBelow(x, k + 1);
    if Log2(x) < k {
      Pow2Monotone(Log2(x) + 1, k);
    }
  }

  /** Scaling both sides of a division. */
  lemma ModScale(x: nat, q: nat, p: nat)
    requires q > 0 && p > 0
    ensures q * p > 0
    ensures (x * p) % (q * p) == (x % q) * p && (x * p) / (q * p) == x / q
  {
    var d, r := x / q, x % q;
    assert x * p == (q * p) * d + r * p by {
      MulDistRight(q * d, r, p);
      MulAssoc(q, p, d);
      MulAssoc(q, d, p);
    }
    ScaledGap(r, q, p);
    MulMonotone(p, 0, r);
    DivModUnique(x * p, q * p, d, r * p);
  }
}
