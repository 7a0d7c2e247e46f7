/** Facts about powers, division and remainder on mathematical integers that
    the limb-level proofs and the reference oracle rely on.  Dafny's `/` and
    `%` are Euclidean; every use below has a positive divisor, where they
    coincide with floor division and a non-negative remainder. */
module Arith {

  /** `b` raised to the `e`-th power; `Pow(0, 0) == 1`, as for BigInteger.Pow. */
  function Pow(b: int, e: nat): (p: int)
    ensures b > 0 ==> p > 0
    decreases e
  {
    if e == 0 then 1 else b * Pow(b, e - 1)
  }

  lemma {:induction false} PowAdd(b: int, e1: nat, e2: nat)
    ensures Pow(b, e1 + e2) == Pow(b, e1) * Pow(b, e2)
    decreases e1
  {
    if e1 > 0 {
      PowAdd(b, e1 - 1, e2);
      var x, y := Pow(b, e1 - 1), Pow(b, e2);
      calc {
        Pow(b, e1 + e2);
        b * Pow(b, e1 - 1 + e2);
        b * (x * y);
        (b * x) * y;
        Pow(b, e1) * Pow(b, e2);
      }
    }
  }

  lemma {:induction false} PowMul(b: int, e1: nat, e2: nat)
    ensures Pow(b, e1 * e2) == Pow(Pow(b, e1), e2)
    decreases e2
  {
    if e2 > 0 {
      PowMul(b, e1, e2 - 1);
      assert e1 * e2 == e1 + e1 * (e2 - 1);
      PowAdd(b, e1, e1 * (e2 - 1));
    }
  }

  lemma {:induction false} PowMonotone(b: int, e1: nat, e2: nat)
    requires b >= 1 && e1 <= e2
    ensures Pow(b, e1) <= Pow(b, e2)
    decreases e2
  {
    if e2 > e1 {
      PowMonotone(b, e1, e2 - 1);
    }
  }

  lemma {:induction false} PowStrict(b: int, e1: nat, e2: nat)
    requires b >= 2 && e1 < e2
    ensures Pow(b, e1) < Pow(b, e2)
  {
    PowMonotone(b, e1, e2 - 1);
  }

  /** The two's-power of a sum of exponents is the product of two positive factors. */
  lemma Pow2Factor(i: nat, j: nat)
    ensures Pow(2, i + j) == Pow(2, i) * Pow(2, j)
  {
    PowAdd(2, i, j);
  }

  /** The quotient and the remainder are determined by the division identity. */
  lemma DivModUnique(x: int, d: int, q: int, r: int)
    requires d > 0 && 0 <= r < d && x == q * d + r
    ensures x / d == q && x % d == r
  {
    var q0, r0 := x / d, x % d;
    assert x == q0 * d + r0;
    assert (q0 - q) * d == r - r0 by {
      assert (q0 - q) * d == q0 * d - q * d;
    }
    if q0 > q {
      MulAtLeast(q0 - q, d);
    } else if q0 < q {
      MulAtLeast(q - q0, d);
    }
  }

  /** DivModUnique with the division identity written the other way round. */
  lemma DivModOf(x: int, d: int, q: int, r: int)
    requires d > 0 && 0 <= r < d && x == r + d * q
    ensures x / d == q && x % d == r
  {
    DivModUnique(x, d, q, r);
  }

  lemma MulAtLeast(a: int, d: int)
    requires a >= 1 && d > 0
    ensures a * d >= d
  {
    assert a * d == (a - 1) * d + d;
  }

  lemma ModAddMultiple(z: int, k: int, m: int)
    requires m > 0
    ensures (z + k * m) % m == z % m
  {
    DivModUnique(z + k * m, m, z / m + k, z % m);
  }

  lemma DivAddMultiple(z: int, k: int, m: int)
    requires m > 0
    ensures (z + k * m) / m == z / m + k
  {
    DivModUnique(z + k * m, m, z / m + k, z % m);
  }

  /** Multiplication is compatible with reduction modulo `m`. */
  lemma MulMod(x: int, y: int, m: int)
    requires m > 0
    ensures (x * y) % m == ((x % m) * (y % m)) % m
  {
    var qx, rx := x / m, x % m;
    var qy, ry := y / m, y % m;
    assert x * y == (qx * m + rx) * (qy * m + ry);
    assert (qx * m + rx) * (qy * m + ry) == rx * ry + (qx * qy * m + qx * ry + rx * qy) * m;
    ModAddMultiple(rx * ry, qx * qy * m + qx * ry + rx * qy, m);
  }

  /** Reducing one factor first does not change the product's residue. */
  lemma MulModLeft(x: int, y: int, m: int)
    requires m > 0
    ensures ((x % m) * y) % m == (x * y) % m
  {
    MulMod(x % m, y, m);
    MulMod(x, y, m);
    ModOfMod(x, m);
  }

  /** A multiple of `m` leaves no residue modulo `m`. */
  lemma ModMultipleZero(v: int, m: int, k: int)
    requires m > 0
    ensures (v * (m * k)) % m == 0
  {
    assert v * (m * k) == 0 + (v * k) * m;
    ModAddMultiple(0, v * k, m);
  }

  /** Addition is compatible with reduction modulo `m`. */
  lemma AddMod(x: int, y: int, m: int)
    requires m > 0
    ensures (x + y) % m == ((x % m) + (y % m)) % m
  {
    assert x + y == (x % m + y % m) + (x / m + y / m) * m;
    ModAddMultiple(x % m + y % m, x / m + y / m, m);
  }

  lemma ModOfMod(x: int, m: int)
    requires m > 0
    ensures (x % m) % m == x % m
  {
    DivModUnique(x % m, m, 0, x % m);
  }

  lemma PowMod(x: int, e: nat, m: int)
    requires m > 0
    ensures Pow(x % m, e) % m == Pow(x, e) % m
    decreases e
  {
    if e > 0 {
      PowMod(x, e - 1, m);
      MulMod(x % m, Pow(x % m, e - 1), m);
      MulMod(x, Pow(x, e - 1), m);
      ModOfMod(x, m);
    }
  }

  // Solver hints.  The lemmas below state no property of the model: each is
  // associativity or congruence of an arithmetic operator, stated apart so
  // that a proof need not find the rearrangement or the substitution under
  // nonlinear operators itself.

  lemma MulAssoc(x: int, y: int, z: int)
    ensures (x * y) * z == x * (y * z)
  {
  }

  lemma ModOfEqual(x: int, y: int, m: int, n: int)
    requires x == y && m == n && m != 0
    ensures x % m == y % n
  {
  }

  lemma MulOfEqual(x: int, y: int, p: int, q: int)
    requires x == y && p == q
    ensures x * p == y * q
  {
  }

  lemma DivOfEqual(x: int, y: int, m: int, n: int)
    requires x == y && m == n && m != 0
    ensures x / m == y / n
  {
  }

  /** Quotient and remainder reconstruct the dividend. */
  lemma DivModParts(x: int, d: int, q: int, r: int)
    requires d > 0 && q == x / d && r == x % d
    ensures q * d + r == x && 0 <= r < d
  {
  }

  /** `x` with its low `j` bits shifted out, one halving at a time. */
  function Halved(x: nat, j: nat): nat
    decreases j
  {
    if j == 0 then x else Halved(x, j - 1) / 2
  }

  /** Shifting out `j` bits one at a time divides by 2^j. */
  lemma HalvedStep(x: nat, j: nat)
    ensures Halved(x, j + 1) == Halved(x, j) / 2
  {
  }

  lemma {:induction false} HalvedIsDiv(x: nat, j: nat)
    ensures Halved(x, j) == x / Pow(2, j)
  {
    if j > 0 {
      HalvedIsDiv(x, j - 1);
      DivDiv(x, Pow(2, j - 1), 2);
      assert Pow(2, j - 1) * 2 == Pow(2, j);
    }
  }

  lemma DivDiv(x: int, a: int, b: int)
    requires x >= 0 && a > 0 && b > 0
    ensures x / a / b == x / (a * b)
  {
    var q1, r1 := x / a, x % a;
    var q2, r2 := q1 / b, q1 % b;
    assert x == q1 * a + r1;
    assert q1 == q2 * b + r2;
    assert q1 * a == q2 * (a * b) + r2 * a by {
      assert q1 * a == (q2 * b + r2) * a;
    }
    MulLeMono(r2, b - 1, a);
    assert (b - 1) * a == a * b - a;
    DivModUnique(x, a * b, q2, r2 * a + r1);
  }

  /** Scaling both sides of a reduction: `(x % m) * k == (x * k) % (m * k)`. */
  lemma ModScale(x: int, m: int, k: int)
    requires m > 0 && k > 0
    ensures (x % m) * k == (x * k) % (m * k)
  {
    assert x * k == (x / m) * (m * k) + (x % m) * k;
    assert (x % m) * k < m * k;
    DivModUnique(x * k, m * k, x / m, (x % m) * k);
  }

  /** A number below `2^n` shifted down by `k <= n` bits is below `2^(n-k)`. */
  lemma DivPow2Bound(x: int, n: nat, k: nat)
    requires 0 <= x < Pow(2, n) && k <= n
    ensures x / Pow(2, k) < Pow(2, n - k)
  {
    Pow2Factor(k, n - k);
    DivBelow(x, Pow(2, k), Pow(2, n - k));
  }

  lemma DivBelow(x: int, p: int, q: int)
    requires p > 0 && 0 <= x < q * p
    ensures x / p < q
  {
    if x / p >= q {
      MulLeMono(q, x / p, p);
    }
  }

  lemma MulLeMono(a: int, b: int, p: int)
    requires a <= b && p >= 0
    ensures a * p <= b * p
  {
    assert b * p == a * p + (b - a) * p;
  }

  /** Consecutive prefixes of the binary expansion:
      `x / 2^j == 2 * (x / 2^(j+1)) + bit j of x`. */
  lemma DivPow2Step(x: int, j: nat)
    requires x >= 0
    ensures x / Pow(2, j) == 2 * (x / Pow(2, j + 1)) + (x / Pow(2, j)) % 2
  {
    assert Pow(2, j + 1) == Pow(2, j) * 2;
    DivDiv(x, Pow(2, j), 2);
  }

  /** Floor division of a negative number through its bitwise complement:
      `x / p == -1 - (-x - 1) / p`, the identity behind an arithmetic right shift. */
  lemma FloorOfComplement(x: int, p: int)
    requires p > 0
    ensures x / p == -1 - (-x - 1) / p
  {
    var t, s := (-x - 1) / p, (-x - 1) % p;
    assert -x - 1 == t * p + s;
    assert x == (-1 - t) * p + (p - 1 - s);
    DivModUnique(x, p, -1 - t, p - 1 - s);
  }

  lemma DivAtMost(x: int, p: int)
    requires x >= 0 && p >= 1
    ensures 0 <= x / p <= x
  {
    if x / p > x {
      MulLeMono(x + 1, x / p, p);
      MulAtLeast(x + 1, p);
    }
  }

  /** Powers of an integer and of its negation differ only in sign, by parity. */
  lemma {:induction false} PowNeg(x: int, e: nat)
    ensures Pow(-x, e) == if e % 2 == 0 then Pow(x, e) else -Pow(x, e)
    decreases e
  {
    if e > 0 {
      PowNeg(x, e - 1);
    }
  }

  lemma {:induction false} PowNonNegative(x: int, e: nat)
    requires x >= 0
    ensures Pow(x, e) >= 0
    decreases e
  {
    if e > 0 {
      PowNonNegative(x, e - 1);
    }
  }

  /** Square-and-multiply: `x^(2k+t) == (x^k)^2 * x^t`. */
  lemma PowDoubleStep(x: int, k: nat, t: nat)
    requires t <= 1
    ensures Pow(x, 2 * k + t) == Pow(x, k) * Pow(x, k) * Pow(x, t)
  {
    PowAdd(x, k, k);
    PowAdd(x, 2 * k, t);
  }
}
