/** The reference arithmetic that the conformance tests compute their expected
    values with: the operators of System.Numerics.BigInteger on unbounded
    integers, the decimal rendering `BigInteger.ToString()`, and the signed
    suite's `Postprocess`.  Dafny's own `/` and `%` are Euclidean, so the
    truncating BigInteger operators are written out here. */
module Oracle {
  import opened Arith

  /** 2^256, the modulus of the tests' `% (BigInteger.One << 256)`. */
  const TWO_256: int := 0x1_0000000000000000_0000000000000000_0000000000000000_0000000000000000
  /** 2^255, the weight of the sign bit of a 256-bit two's-complement value. */
  const TWO_255: int := 0x8000000000000000_0000000000000000_0000000000000000_0000000000000000

  /** The values of the unsigned 256-bit type. */
  predicate InUnsignedRange(x: int)
  {
    0 <= x < TWO_256
  }

  /** The values of the signed 256-bit type. */
  predicate InSignedRange(x: int)
  {
    -TWO_255 <= x < TWO_255
  }

  /** The values of a C# `int`, the type of the tests' shift amounts and small exponents. */
  predicate InInt32Range(n: int)
  {
    -0x8000_0000 <= n < 0x8000_0000
  }

  function Abs(x: int): nat
  {
    if x < 0 then -x else x
  }

  /** BigInteger `a / b`: the quotient truncated toward zero. */
  function TDiv(a: int, b: int): int
    requires b != 0
  {
    var q := Abs(a) / Abs(b);
    if (a < 0) == (b < 0) then q else -q
  }

  /** BigInteger `a % b`: the remainder of the truncated division, which has the
      sign of the dividend. */
  function TMod(a: int, b: int): int
    requires b != 0
  {
    var r := Abs(a) % Abs(b);
    if a < 0 then -r else r
  }

  /** The truncated quotient and remainder satisfy the division identity. */
  lemma TruncatedDivision(a: int, b: int)
    requires b != 0
    ensures TDiv(a, b) * b + TMod(a, b) == a
  {
    var aa: int, bb: int := Abs(a), Abs(b);
    var q: int, r: int := aa / bb, aa % bb;
    assert aa == q * bb + r;
    var t, m := TDiv(a, b), TMod(a, b);
    if a < 0 {
      assert aa == -a && m == -r;
    } else {
      assert aa == a && m == r;
    }
    if (a < 0) == (b < 0) {
      assert t == q;
    } else {
      assert t == -q;
    }
    if b < 0 {
      assert bb == -b;
    } else {
      assert bb == b;
    }
    MulNeg(q, bb);
  }

  /** The truncated remainder is smaller than the divisor in magnitude and,
      when nonzero, has the sign of the dividend; the quotient's magnitude is
      the quotient of the magnitudes. */
  lemma TruncatedRemainder(a: int, b: int)
    requires b != 0
    ensures Abs(TMod(a, b)) < Abs(b)
    ensures TMod(a, b) != 0 ==> (TMod(a, b) < 0 <==> a < 0)
    ensures Abs(TDiv(a, b)) == Abs(a) / Abs(b)
  {
    var aa: int, bb: int := Abs(a), Abs(b);
    var q: int, r: int := aa / bb, aa % bb;
    DivModUnique(aa, bb, q, r);
    assert q >= 0 by {
      if q < 0 {
        MulLeMono(q, -1, bb);
      }
    }
    if a < 0 {
      assert TMod(a, b) == -r;
    } else {
      assert TMod(a, b) == r;
    }
    if (a < 0) == (b < 0) {
      assert TDiv(a, b) == q;
    } else {
      assert TDiv(a, b) == -q;
    }
  }

  lemma MulNeg(x: int, y: int)
    ensures x * (-y) == -(x * y) && (-x) * y == -(x * y) && (-x) * (-y) == x * y
  {
  }

  /** On non-negative operands the truncating operators agree with floor division. */
  lemma TruncatedNonNegative(a: int, b: int)
    requires a >= 0 && b > 0
    ensures TDiv(a, b) == a / b && TMod(a, b) == a % b
  {
  }

  /** A remainder by a divisor larger in magnitude leaves the dividend unchanged. */
  lemma TModSmall(a: int, b: int)
    requires Abs(a) < Abs(b)
    ensures TMod(a, b) == a
  {
    DivModUnique(Abs(a), Abs(b), 0, Abs(a));
  }

  /** The truncated remainder of a signed magnitude `±v` is that sign applied
      to the remainder of `v` by the divisor's magnitude. */
  lemma TModOfSigned(neg: bool, v: nat, b: int)
    requires b != 0
    ensures TMod(if neg then -(v as int) else v, b) == (if neg then -((v % Abs(b)) as int) else v % Abs(b))
  {
    if neg && v == 0 {
      assert 0 % Abs(b) == 0;
    }
  }

  /** BigInteger `a << n` for a non-negative shift amount. */
  function ShiftLeft(a: int, n: nat): int
  {
    a * Pow(2, n)
  }

  /** BigInteger `a >> n` for a non-negative shift amount: the floor of
      `a / 2^n`, so negative values stay negative (sign extension). */
  function ShiftRight(a: int, n: nat): int
  {
    a / Pow(2, n)
  }

  /** The right shift rounds toward negative infinity. */
  lemma ShiftRightIsFloor(a: int, n: nat)
    ensures ShiftRight(a, n) * Pow(2, n) <= a < (ShiftRight(a, n) + 1) * Pow(2, n)
  {
    var p := Pow(2, n);
    assert a == (a / p) * p + a % p;
    assert (a / p + 1) * p == (a / p) * p + p;
  }

  /** BigInteger.ModPow(a, e, m) for `e >= 0`: the power's truncated remainder,
      so the result has the sign of `a^e` and depends only on `|m|`. */
  function ModPow(a: int, e: nat, m: int): int
    requires m != 0
  {
    TMod(Pow(a, e), m)
  }

  /** Reads a 256-bit pattern `0 <= low < 2^256` as a two's-complement number. */
  function AsTwosComplement(low: int): int
  {
    if low >= TWO_255 then low - TWO_256 else low
  }

  /** `Int256ImplTests.Postprocess`: a value whose minimal two's-complement
      byte form has at most 32 bytes (exactly the signed 256-bit range) comes
      back unchanged; a longer form is cut to its low 32 bytes, that is its
      residue modulo 2^256, which is read back as two's complement. */
  function Postprocess(x: int): (r: int)
    ensures InSignedRange(r)
    ensures (r - x) % TWO_256 == 0
  {
    if InSignedRange(x) then x
    else
      var low := x % TWO_256;
      assert x == low + (x / TWO_256) * TWO_256;
      AsTwosComplement(low)
  }

  /** Postprocess is the only signed 256-bit value congruent to its argument
      modulo 2^256. */
  lemma PostprocessUnique(x: int, r: int)
    requires InSignedRange(r) && (r - x) % TWO_256 == 0
    ensures Postprocess(x) == r
  {
    var p := Postprocess(x);
    var k1, k2 := (r - x) / TWO_256, (p - x) / TWO_256;
    assert r - x == k1 * TWO_256;
    assert p - x == k2 * TWO_256;
    assert r - p == (k1 - k2) * TWO_256;
    if k1 - k2 >= 1 {
      MulAtLeast(k1 - k2, TWO_256);
    } else if k1 - k2 <= -1 {
      MulAtLeast(k2 - k1, TWO_256);
    }
  }

  /** Values of the signed type pass through Postprocess unchanged, and values
      that differ by a multiple of 2^256 are post-processed alike. */
  lemma PostprocessFacts(x: int, k: int)
    ensures InSignedRange(x) ==> Postprocess(x) == x
    ensures Postprocess(x + k * TWO_256) == Postprocess(x)
  {
    var p := Postprocess(x);
    assert p - (x + k * TWO_256) == (p - x) + (-k) * TWO_256;
    ModAddMultiple(p - x, -k, TWO_256);
    PostprocessUnique(x + k * TWO_256, p);
  }

  /** Postprocess depends only on the residue modulo 2^256: it is that
      residue read as two's complement. */
  lemma PostprocessResidue(x: int)
    ensures Postprocess(x) == AsTwosComplement(x % TWO_256)
  {
    if InSignedRange(x) {
      if x >= 0 {
        DivModUnique(x, TWO_256, 0, x);
      } else {
        DivModUnique(x, TWO_256, -1, x + TWO_256);
      }
    }
  }

  /** Integers with the same residue modulo 2^256 are post-processed alike. */
  lemma PostprocessCongruent(x: int, y: int)
    requires x % TWO_256 == y % TWO_256
    ensures Postprocess(x) == Postprocess(y)
  {
    PostprocessResidue(x);
    PostprocessResidue(y);
  }

  // Solver hints: congruence of `Postprocess` and `TMod`, stated apart so that
  // a proof need not find the substitution under these definitions itself.

  lemma PostprocessOfEqual(x: int, y: int)
    requires x == y
    ensures Postprocess(x) == Postprocess(y)
  {
  }

  lemma TModOfEqual(x: int, y: int, m: int, n: int)
    requires x == y && m == n && m != 0
    ensures TMod(x, m) == TMod(y, n)
  {
  }

  /** The tests reduce by `% (BigInteger.One << 256)` before post-processing;
      for the signed suite that truncated reduction changes nothing
      Postprocess can see. */
  lemma PostprocessAfterReduction(x: int)
    ensures Postprocess(TMod(x, TWO_256)) == Postprocess(x)
  {
    TruncatedDivision(x, TWO_256);
    var q := TDiv(x, TWO_256);
    assert TMod(x, TWO_256) == x + (-q) * TWO_256;
    ModAddMultiple(x, -q, TWO_256);
    PostprocessCongruent(TMod(x, TWO_256), x);
  }

  /** Congruence modulo `m` is preserved by sums, differences and products. */
  lemma CongruentOps(x: int, x': int, y: int, y': int, m: int)
    requires m > 0 && x % m == x' % m && y % m == y' % m
    ensures (x + y) % m == (x' + y') % m
    ensures (x - y) % m == (x' - y') % m
    ensures (x * y) % m == (x' * y') % m
  {
    AddMod(x, y, m);
    AddMod(x', y', m);
    MulMod(x, y, m);
    MulMod(x', y', m);
    SubMod(x, y, m);
    SubMod(x', y', m);
  }

  lemma SubMod(x: int, y: int, m: int)
    requires m > 0
    ensures (x - y) % m == (x % m - y % m) % m
  {
    assert x - y == (x % m - y % m) + (x / m - y / m) * m;
    ModAddMultiple(x % m - y % m, x / m - y / m, m);
  }

  // ---------------------------------------------------------------------
  // Decimal rendering: BigInteger.ToString()
  // ---------------------------------------------------------------------

  function DigitChar(d: nat): (c: char)
    requires d < 10
    ensures '0' <= c <= '9'
  {
    ('0' as int + d) as char
  }

  predicate IsDigit(c: char)
  {
    '0' <= c <= '9'
  }

  function DigitValue(c: char): (d: nat)
    requires IsDigit(c)
    ensures d < 10
  {
    c as int - '0' as int
  }

  /** The decimal digits of `n`, most significant first, without leading zeros. */
  function NatToDecimal(n: nat): (s: string)
    ensures |s| > 0 && forall i :: 0 <= i < |s| ==> IsDigit(s[i])
    decreases n
  {
    if n < 10 then [DigitChar(n)] else NatToDecimal(n / 10) + [DigitChar(n % 10)]
  }

  /** `x.ToString()` for a BigInteger `x`: a leading `-` for negative values,
      then the decimal digits of the magnitude. */
  function ToDecimalString(x: int): string
  {
    if x < 0 then "-" + NatToDecimal(-x) else NatToDecimal(x)
  }

  /** The number a string of decimal digits denotes. */
  function ParseNat(s: string): nat
    requires forall i :: 0 <= i < |s| ==> IsDigit(s[i])
  {
    if |s| == 0 then 0 else 10 * ParseNat(s[..|s| - 1]) + DigitValue(s[|s| - 1])
  }

  /** Reads back an optionally `-`-prefixed decimal numeral. */
  function ParseDecimal(s: string): int
    requires |s| > 0 && (forall i :: 0 < i < |s| ==> IsDigit(s[i]))
    requires s[0] == '-' || IsDigit(s[0])
  {
    if s[0] == '-' then -(ParseNat(s[1..]) as int) else ParseNat(s)
  }

  /** The rendering has no leading zero except for zero itself, and reading
      it back yields the number. */
  lemma {:induction false} NatToDecimalRoundTrip(n: nat)
    ensures ParseNat(NatToDecimal(n)) == n
    ensures NatToDecimal(n)[0] == '0' <==> n == 0
    decreases n
  {
    var s := NatToDecimal(n);
    if n >= 10 {
      NatToDecimalRoundTrip(n / 10);
      assert s[..|s| - 1] == NatToDecimal(n / 10);
    }
  }

  /** Reading the rendering of any integer back yields that integer. */
  lemma ToDecimalStringRoundTrip(x: int)
    ensures |ToDecimalString(x)| > 0
    ensures ParseDecimal(ToDecimalString(x)) == x
    ensures ToDecimalString(x)[0] == '-' <==> x < 0
  {
    if x < 0 {
      NatToDecimalRoundTrip(-x);
      assert ToDecimalString(x)[1..] == NatToDecimal(-x);
    } else {
      NatToDecimalRoundTrip(x);
    }
  }
}
