/**
 * Facts about Euclidean division on naturals that the scale reducer relies
 * on: quotients are unique, a common factor cancels, and nested quotients
 * collapse.
 */
module Arith {

  lemma MulAtLeast(k: int, d: int)
    requires k >= 1 && d > 0
    ensures k * d >= d
  {
    assert k * d == (k - 1) * d + d;
    assert (k - 1) * d >= 0;
  }

  /** A quotient and remainder that satisfy the division equation are the quotient and remainder. */
  lemma DivUnique(n: int, d: int, q: int, r: int)
    requires d > 0 && 0 <= r < d && n == q * d + r
    ensures n / d == q && n % d == r
  {
    var q0, r0 := n / d, n % d;
    assert n == q0 * d + r0 && 0 <= r0 < d;
    assert (q - q0) * d == r0 - r;
    if q > q0 {
      MulAtLeast(q - q0, d);
    } else if q < q0 {
      MulAtLeast(q0 - q, d);
    }
  }

  lemma MultipleMod(k: int, d: int)
    requires d > 0
    ensures (k * d) % d == 0 && (k * d) / d == k
  {
    DivUnique(k * d, d, k, 0);
  }

  lemma DivMulLe(x: nat, y: nat)
    requires y > 0
    ensures (x / y) * y <= x
  {
  }

  lemma DivAtMost(x: nat, k: nat)
    requires k > 0
    ensures x / k <= x
  {
    MulAtLeast(k, 1);
    DivMulLe(x, k);
    if x / k > 0 {
      MulAtLeast(k, x / k);
      assert (x / k) * k == k * (x / k);
    }
  }

  /** Unsigned division `x / k`: the floor quotient, which brackets its dividend. */
  function FloorDiv(x: nat, k: nat): (q: nat)
    requires k > 0
    ensures q <= x
    ensures q * k <= x < (q + 1) * k
  {
    var q, r := x / k, x % k;
    assert x == q * k + r;
    assert (q + 1) * k == q * k + k;
    DivAtMost(x, k);
    q
  }

  lemma MulMonotone(a: int, b: int, c: int)
    requires c >= 0
    ensures a <= b ==> a * c <= b * c
  {
    assert b * c - a * c == (b - a) * c;
    if a <= b {
      assert (b - a) * c >= 0;
    }
  }

  lemma DivMonotone(a: nat, b: nat, d: nat)
    requires d > 0 && a <= b
    ensures a / d <= b / d
  {
    var qa, qb := a / d, b / d;
    assert qa * d <= a;
    assert b < qb * d + d;
    assert qb * d + d == (qb + 1) * d;
    MulMonotone(qb + 1, qa, d);
  }

  /** A larger divisor never gives a larger quotient. */
  lemma DivByLarger(n: nat, a: nat, b: nat)
    requires 0 < a <= b
    ensures n / b <= n / a
  {
    var q := n / b;
    DivMulLe(n, b);
    MulMonotone(a, b, q);
    assert q * a <= n;
    assert n < (n / a + 1) * a by {
      assert (n / a + 1) * a == (n / a) * a + a;
    }
    MulMonotone(n / a + 1, q, a);
  }

  /** `(x * g) / (y * g) == x / y`: a common factor cancels. */
  lemma MulDivCancel(x: nat, y: nat, g: nat)
    requires y > 0 && g > 0
    ensures y * g > 0
    ensures (x * g) / (y * g) == x / y
  {
    var q, r := x / y, x % y;
    assert x == q * y + r;
    assert x * g == q * (y * g) + r * g;
    assert 0 <= r * g;
    assert r * g < y * g by {
      assert (y - r) * g > 0 by { MulAtLeast(y - r, g); }
    }
    DivUnique(x * g, y * g, q, r * g);
  }

  /** `(x / y) / z == x / (y * z)`. */
  lemma DivDiv(x: nat, y: nat, z: nat)
    requires y > 0 && z > 0
    ensures y * z > 0
    ensures (x / y) / z == x / (y * z)
  {
    var q1, r1 := x / y, x % y;
    var q2, r2 := q1 / z, q1 % z;
    DivDivEquation(x, y, z, q1, r1, q2, r2);
    DivDivBound(y, z, r1, r2);
    MulAtLeast(z, y);
    DivUnique(x, y * z, q2, r2 * y + r1);
  }

  lemma DivDivEquation(x: int, y: int, z: int, q1: int, r1: int, q2: int, r2: int)
    requires x == q1 * y + r1 && q1 == q2 * z + r2
    ensures x == q2 * (y * z) + (r2 * y + r1)
  {
    calc {
      x;
      q1 * y + r1;
      (q2 * z + r2) * y + r1;
      { assert (q2 * z + r2) * y == (q2 * z) * y + r2 * y; }
      (q2 * z) * y + r2 * y + r1;
      { assert (q2 * z) * y == q2 * (y * z); }
      q2 * (y * z) + (r2 * y + r1);
    }
  }

  lemma DivDivBound(y: int, z: int, r1: int, r2: int)
    requires 0 <= r1 < y && 0 <= r2 < z
    ensures 0 <= r2 * y + r1 < y * z
  {
    MulMonotone(r2, z - 1, y);
    MulMonotone(0, r2, y);
    assert (z - 1) * y == y * z - y;
  }

  /** Multiplication by a positive factor preserves strict order. */
  lemma MulStrictMonotone(a: nat, b: nat, g: nat)
    requires g > 0 && a < b
    ensures a * g < b * g
  {
    MulAtLeast(b - a, g);
    assert b * g - a * g == (b - a) * g;
  }

  /** Adding `k` and then subtracting it modulo `m` (or the other way round) leaves a residue `t` unchanged. */
  lemma ModRoundTrip(t: int, k: int, m: int)
    requires m > 0 && 0 <= t < m
    ensures ((t + k) % m - k) % m == t
    ensures ((t - k) % m + k) % m == t
  {
    ModAddLeft(t + k, -k, m);
    ModAddLeft(t - k, k, m);
    DivUnique(t, m, 0, t);
  }

  /** `a mod m + b` taken mod `m` again equals `a + b` mod `m`. */
  lemma ModAddLeft(a: int, b: int, m: int)
    requires m > 0
    ensures (a % m + b) % m == (a + b) % m
  {
    var q := a / m;
    assert a == q * m + a % m;
    var k := (a % m + b) / m;
    var r := (a % m + b) % m;
    assert a % m + b == k * m + r;
    assert a + b == (q + k) * m + r;
    DivUnique(a + b, m, q + k, r);
  }
}

/**
 * Greatest common divisor by Euclid's algorithm. The library calls an
 * external binary-gcd routine; only its mathematical result is modelled.
 */
module Divisibility {
  import opened Arith

  /** `d` is a positive divisor of `n`. */
  predicate Divides(d: nat, n: nat) {
    d > 0 && n % d == 0
  }

  function Gcd(a: nat, b: nat): nat
    decreases b
  {
    if b == 0 then a else Gcd(b, a % b)
  }

  /** If `d` divides `x` and `y`, it divides `x + k * y` for any integer `k`. */
  lemma DividesCombination(d: nat, x: nat, y: nat, k: int)
    requires Divides(d, x) && Divides(d, y) && x + k * y >= 0
    ensures Divides(d, x + k * y)
  {
    var a, b := x / d, y / d;
    assert x == a * d;
    assert y == b * d;
    assert x + k * y == (a + k * b) * d;
    MultipleMod(a + k * b, d);
  }

  /** The gcd of two naturals, not both zero, is positive and divides both. */
  lemma {:induction false} GcdDivides(a: nat, b: nat)
    requires a > 0 || b > 0
    ensures Divides(Gcd(a, b), a) && Divides(Gcd(a, b), b)
    decreases b
  {
    if b == 0 {
      MultipleMod(1, a);
      MultipleMod(0, a);
    } else {
      GcdDivides(b, a % b);
      var g := Gcd(a, b);
      assert a % b + (a / b) * b == a;
      DividesCombination(g, a % b, b, a / b);
    }
  }

  /** Every common divisor of `a` and `b` divides their gcd. */
  lemma {:induction false} GcdGreatest(a: nat, b: nat, d: nat)
    requires Divides(d, a) && Divides(d, b)
    ensures Divides(d, Gcd(a, b))
    decreases b
  {
    if b != 0 {
      assert a + (-(a / b)) * b == a % b;
      DividesCombination(d, a, b, -(a / b));
      GcdGreatest(b, a % b, d);
    }
  }

  lemma {:induction false} GcdSymmetric(a: nat, b: nat)
    ensures Gcd(a, b) == Gcd(b, a)
  {
    if a == b {
    } else if a == 0 {
      MultipleMod(0, b);
      assert Gcd(a, b) == Gcd(b, 0);
    } else if b == 0 {
      MultipleMod(0, a);
      assert Gcd(b, a) == Gcd(a, 0);
    } else if a < b {
      DivUnique(a, b, 0, a);
      assert Gcd(a, b) == Gcd(b, a);
    } else {
      DivUnique(b, a, 0, b);
      assert Gcd(b, a) == Gcd(a, b);
    }
  }

  lemma GcdSelf(a: nat)
    ensures Gcd(a, a) == a
  {
    if a > 0 {
      MultipleMod(1, a);
      assert a % a == 0;
    }
  }

  /** A positive divisor `d` of `n > 0` gives a positive cofactor `n / d`. */
  lemma Cofactor(n: nat, d: nat)
    requires n > 0 && Divides(d, n)
    ensures n / d > 0 && n == (n / d) * d
  {
  }

  /** If `h` divides `n / g` then `h * g` divides `n`. */
  lemma ScaledDivisor(n: nat, g: nat, h: nat)
    requires n > 0 && Divides(g, n) && Divides(h, n / g)
    ensures Divides(h * g, n)
  {
    Cofactor(n, g);
    var i := (n / g) / h;
    assert n / g == i * h;
    assert n == i * (h * g) by {
      assert n == (i * h) * g;
    }
    MulAtLeast(h, g);
    MultipleMod(i, h * g);
  }

  /** A positive divisor of a positive natural is no larger than it. */
  lemma DivisorAtMost(d: nat, n: nat)
    requires n > 0 && Divides(d, n)
    ensures d <= n
  {
    Cofactor(n, d);
    MulAtLeast(n / d, d);
  }

  lemma FactorIsOne(h: nat, g: nat)
    requires h >= 1 && g >= 1 && h * g <= g
    ensures h == 1
  {
    MulMonotone(2, h, g);
  }

  /** Dividing two positive naturals by their gcd leaves coprime cofactors. */
  lemma CofactorsCoprime(a: nat, b: nat)
    requires a > 0 && b > 0
    ensures Divides(Gcd(a, b), a) && Divides(Gcd(a, b), b)
    ensures Gcd(a / Gcd(a, b), b / Gcd(a, b)) == 1
  {
    GcdDivides(a, b);
    var g := Gcd(a, b);
    Cofactor(a, g);
    GcdDivides(a / g, b / g);
    var h := Gcd(a / g, b / g);
    ScaledDivisor(a, g, h);
    ScaledDivisor(b, g, h);
    GcdGreatest(a, b, h * g);
    DivisorAtMost(h * g, g);
    FactorIsOne(h, g);
  }
}
