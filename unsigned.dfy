/** UInt256: the unsigned 256-bit value, four 64-bit words `u0` (least
    significant) to `u3`, standing for `u0 + u1*2^64 + u2*2^128 + u3*2^192`.
    Every operation is computed on the words and proved equal to the
    arbitrary-precision expression the conformance suite checks it against. */
module Unsigned {
  import opened Arith
  import opened Limbs
  import opened LimbShifts
  import opened LimbDivision
  import Oracle

  /** 2^256: one past the largest value. */
  const MODULUS: int := Oracle.TWO_256
  /** The weights of words 2 and 3: 2^128 and 2^192. */
  const W2: int := 0x1_0000000000000000_0000000000000000
  const W3: int := 0x1_0000000000000000_0000000000000000_0000000000000000

  /** The four words, word `i` at index `i`, least significant first. */
  type UInt256 = s: seq<Limb> | |s| == 4 witness [0, 0, 0, 0]

  lemma ModulusWords()
    ensures Pow(BASE, 4) == MODULUS
  {
    assert Pow(BASE, 2) == BASE * BASE;
    assert Pow(BASE, 4) == Pow(BASE, 2) * Pow(BASE, 2) by {
      PowAdd(BASE, 2, 2);
    }
  }

  /** The value of four words written out by weight. */
  lemma Val4(s: seq<Limb>)
    requires |s| == 4
    ensures Val(s) == s[0] + BASE * s[1] + W2 * s[2] + W3 * s[3]
  {
    assert s[1..][1..] == s[2..];
    assert s[2..][1..] == s[3..];
    assert s[3..][1..] == [];
    ValCons(s);
    ValCons(s[1..]);
    ValCons(s[2..]);
    ValCons(s[3..]);
  }

  /** `Convert(out BigInteger)`: the number the four words stand for,
      `u0 + u1*2^64 + u2*2^128 + u3*2^192`, always below 2^256. */
  function ToBig(x: UInt256): (v: nat)
    ensures v < MODULUS
  {
    ValBound(x);
    ModulusWords();
    Val(x)
  }

  /** Distinct word patterns stand for distinct numbers. */
  lemma ToBigInjective(x: UInt256, y: UInt256)
    requires ToBig(x) == ToBig(y)
    ensures x == y
  {
    ValInjective(x, y);
  }

  /** The explicit conversion `(UInt256)v` of a value of the type. */
  function FromBig(v: int): (x: UInt256)
    requires Oracle.InUnsignedRange(v)
    ensures ToBig(x) == v
  {
    ModulusWords();
    FromNat(v, 4)
  }

  /** Conversion from an integer and back is the identity in both directions. */
  lemma ConvertRoundTrip(x: UInt256, v: int)
    requires Oracle.InUnsignedRange(v)
    ensures FromBig(ToBig(x)) == x
    ensures ToBig(FromBig(v)) == v
  {
    ToBigInjective(FromBig(ToBig(x)), x);
  }

  // ---------------------------------------------------------------------
  // Constants and tests on constants
  // ---------------------------------------------------------------------

  const Zero: UInt256 := [0, 0, 0, 0]
  const One: UInt256 := [1, 0, 0, 0]
  const MinValue: UInt256 := Zero
  const MaxValue: UInt256 := [BASE - 1, BASE - 1, BASE - 1, BASE - 1]

  /** The constants stand for 0, 1, the least value 0 and the greatest value 2^256 - 1. */
  lemma ConstantValues()
    ensures ToBig(Zero) == 0 && ToBig(One) == 1
    ensures ToBig(MinValue) == 0 && ToBig(MaxValue) == MODULUS - 1
    ensures forall x: UInt256 :: ToBig(MinValue) <= ToBig(x) <= ToBig(MaxValue)
  {
    Val4(Zero);
    Val4(One);
    Val4(MaxValue);
  }

  /** The `IsZero` property: all four words are zero. */
  function IsZero(x: UInt256): (b: bool)
    ensures b <==> ToBig(x) == 0
  {
    Val4(x);
    x[0] == 0 && x[1] == 0 && x[2] == 0 && x[3] == 0
  }

  /** The `IsOne` property: the lowest word is one and the others are zero. */
  function IsOne(x: UInt256): (b: bool)
    ensures b <==> ToBig(x) == 1
  {
    Val4(x);
    x[0] == 1 && x[1] == 0 && x[2] == 0 && x[3] == 0
  }

  // ---------------------------------------------------------------------
  // Arithmetic
  // ---------------------------------------------------------------------

  /** `a.Add(b, out res)`: the four-word sum with the carry out of the top word dropped. */
  function Add(a: UInt256, b: UInt256): (r: UInt256)
    ensures ToBig(r) == (ToBig(a) + ToBig(b)) % MODULUS
  {
    ModulusWords();
    WrappingSum(a, b)
  }

  /** `a.Subtract(b, out res)`: the four-word difference with the borrow out
      of the top word dropped, so an underflow wraps around. */
  function Subtract(a: UInt256, b: UInt256): (r: UInt256)
    ensures ToBig(r) == (ToBig(a) - ToBig(b)) % MODULUS
    ensures ToBig(a) >= ToBig(b) ==> ToBig(r) == ToBig(a) - ToBig(b)
  {
    ModulusWords();
    SmallResidue(ToBig(a) - ToBig(b), MODULUS);
    WrappingDifference(a, b)
  }

  lemma SmallResidue(x: int, m: int)
    requires m > 0 && x < m
    ensures x >= 0 ==> x % m == x
  {
    if x >= 0 {
      DivModUnique(x, m, 0, x);
    }
  }

  /** `a.Multiply(b, out res)`: the low four words of the eight-word product. */
  function Multiply(a: UInt256, b: UInt256): (r: UInt256)
    ensures ToBig(r) == (ToBig(a) * ToBig(b)) % MODULUS
  {
    var w := MulWide(a, b);
    ValSplit(w, 4);
    ModulusWords();
    w[..4]
  }

  /** `a.Divide(b, out res)`: the quotient of the long division, which for
      non-negative operands is the floor (and the truncated) quotient. */
  function Divide(a: UInt256, b: UInt256): (q: UInt256)
    requires ToBig(b) != 0
    ensures ToBig(q) == ToBig(a) / ToBig(b)
  {
    DivMod(a, b).0
  }

  /** The remainder of the long division. */
  function Mod(a: UInt256, m: UInt256): (r: UInt256)
    requires ToBig(m) != 0
    ensures ToBig(r) == ToBig(a) % ToBig(m)
  {
    DivMod(a, m).1
  }

  /** Quotient and remainder reconstruct the dividend, and the remainder is
      below the divisor. */
  lemma DivisionIdentity(a: UInt256, b: UInt256)
    requires ToBig(b) != 0
    ensures ToBig(Divide(a, b)) * ToBig(b) + ToBig(Mod(a, b)) == ToBig(a)
    ensures ToBig(Mod(a, b)) < ToBig(b)
  {
    DivModParts(ToBig(a), ToBig(b), ToBig(Divide(a, b)), ToBig(Mod(a, b)));
  }

  /** The five-word sum of two values, the carry out of the top word kept
      as a fifth word: nothing is lost. */
  function WideSum(a: UInt256, b: UInt256): (w: seq<Limb>)
    ensures |w| == 5 && Val(w) == ToBig(a) + ToBig(b)
  {
    FullSum(a, b)
  }

  /** `a.AddMod(b, m, out res)`: the five-word sum reduced modulo `m`;
      nothing is truncated before the reduction. */
  function AddMod(a: UInt256, b: UInt256, m: UInt256): (r: UInt256)
    requires ToBig(m) != 0
    ensures ToBig(r) == (ToBig(a) + ToBig(b)) % ToBig(m)
  {
    DivMod(WideSum(a, b), m).1
  }

  /** `a.MultiplyMod(b, m, out res)`: the full eight-word product reduced modulo `m`. */
  function MultiplyMod(a: UInt256, b: UInt256, m: UInt256): (r: UInt256)
    requires ToBig(m) != 0
    ensures ToBig(r) == (ToBig(a) * ToBig(b)) % ToBig(m)
  {
    DivMod(MulWide(a, b), m).1
  }

  /** One square-and-multiply step on residues: from `R == x^k mod m` and
      `X == x^t mod m` the step yields `x^(2k+t) mod m`. */
  lemma SquareMultiplyStep(x: int, k: nat, t: nat, R: int, X: int, m: int)
    requires m > 0 && t <= 1
    requires R == Pow(x, k) % m && X == Pow(x, t) % m
    ensures ((R * R) % m * X) % m == Pow(x, 2 * k + t) % m
  {
    var P, Q := Pow(x, k), Pow(x, t);
    PowDoubleStep(x, k, t);
    MulMod(P, P, m);
    MulMod(R, R, m);
    ModOfMod(P, m);
    assert (P * P) % m == (R * R) % m;
    MulMod(P * P, Q, m);
    MulMod((R * R) % m, Q, m);
    ModOfMod(R * R, m);
  }

  /** The factor the step multiplies by: `x^t mod m` for the bit `t`. */
  lemma BitPower(x: int, t: nat, m: int)
    requires m > 0 && t <= 1
    ensures Pow(x, t) % m == (if t == 1 then x % m else 1 % m)
  {
  }

  /** One step of square-and-multiply, from the exponent `n / 2` to `n`:
      square the power, then multiply by `x^t` for the low bit `t` of `n`,
      each product reduced modulo `m`. */
  lemma ExpStep(x: int, n: nat, t: nat, R: int, X: int, S: int, res: int, m: int)
    requires m > 0 && t == n % 2
    requires R == Pow(x, n / 2) % m
    requires X == (if t == 1 then x % m else 1 % m)
    requires S == (R * R) % m && res == (S * X) % m
    ensures res == Pow(x, n) % m
  {
    BitPower(x, t, m);
    SquareMultiplyStep(x, n / 2, t, R, X, m);
  }

  /** Bit `j` of the exponent is the parity of the exponent with its low `j`
      bits shifted out. */
  lemma ExponentBit(e: UInt256, j: nat)
    ensures Bit(e, j) == Halved(ToBig(e), j) % 2
  {
    HalvedIsDiv(ToBig(e), j);
  }

  /** All 256 bits shifted out of the exponent leave nothing. */
  lemma ExponentExhausted(e: UInt256)
    ensures Halved(ToBig(e), 256) == 0
  {
    HalvedIsDiv(ToBig(e), 256);
    ShrPastWidth(e, 256);
  }

  /** Square-and-multiply over the exponent's bits from bit 255 down to bit
      `j`: the power of `a` by the exponent with its low `j` bits shifted
      out, modulo 2^256. */
  function ExpFrom(a: UInt256, e: UInt256, j: nat): (r: UInt256)
    requires j <= 256
    ensures ToBig(r) == Pow(ToBig(a), Halved(ToBig(e), j)) % MODULUS
    decreases 256 - j
  {
    SmallResidue(1, MODULUS);
    ConstantValues();
    if j == 256 then
      ExponentExhausted(e);
      One
    else
      var r := ExpFrom(a, e, j + 1);
      var t := Bit(e, j);
      ExponentBit(e, j);
      HalvedStep(ToBig(e), j);
      var x := if t == 1 then a else One;
      var sq := Multiply(r, r);
      var res := Multiply(sq, x);
      SmallResidue(ToBig(a), MODULUS);

      ExpStep(ToBig(a), Halved(ToBig(e), j), t, ToBig(r), ToBig(x), ToBig(sq), ToBig(res), MODULUS);
      res
  }

  /** `a.Exp(e, out res)`: `a^e mod 2^256`. */
  function Exp(a: UInt256, e: UInt256): (r: UInt256)
    ensures ToBig(r) == Pow(ToBig(a), ToBig(e)) % MODULUS
  {
    ExpFrom(a, e, 0)
  }

  /** Square-and-multiply modulo `m`, every intermediate reduced below `m`. */
  function ExpModFrom(a: UInt256, e: UInt256, m: UInt256, j: nat): (r: UInt256)
    requires ToBig(m) != 0 && j <= 256
    ensures ToBig(r) == Pow(ToBig(a), Halved(ToBig(e), j)) % ToBig(m)
    decreases 256 - j
  {
    ConstantValues();
    if j == 256 then
      ExponentExhausted(e);
      Mod(One, m)
    else
      var r := ExpModFrom(a, e, m, j + 1);
      var t := Bit(e, j);
      ExponentBit(e, j);
      HalvedStep(ToBig(e), j);
      var x := if t == 1 then Mod(a, m) else Mod(One, m);
      var sq := MultiplyMod(r, r, m);
      var res := MultiplyMod(sq, x, m);

      ExpStep(ToBig(a), Halved(ToBig(e), j), t, ToBig(r), ToBig(x), ToBig(sq), ToBig(res), ToBig(m));
      res
  }

  /** `a.ExpMod(e, m, out res)`: `a^e mod m`. */
  function ExpMod(a: UInt256, e: UInt256, m: UInt256): (r: UInt256)
    requires ToBig(m) != 0
    ensures ToBig(r) == Pow(ToBig(a), ToBig(e)) % ToBig(m)
  {
    ExpModFrom(a, e, m, 0)
  }

  // ---------------------------------------------------------------------
  // Shifts, complement, comparison
  // ---------------------------------------------------------------------

  /** `a.LeftShift(n, out res)`: logical shift; bits past bit 255 are lost. */
  function LeftShift(a: UInt256, n: nat): (r: UInt256)
    ensures ToBig(r) == (ToBig(a) * Pow(2, n)) % MODULUS
  {
    ModulusWords();
    Shl(a, n)
  }

  /** `a.RightShift(n, out res)`: logical shift, zero-filled from the top. */
  function RightShift(a: UInt256, n: nat): (r: UInt256)
    ensures ToBig(r) == ToBig(a) / Pow(2, n)
  {
    Shr(a, n)
  }

  /** Bitwise complement `~a`. */
  function Not(a: UInt256): (r: UInt256)
    ensures ToBig(r) == MODULUS - 1 - ToBig(a)
  {
    ModulusWords();
    Limbs.Not(a)
  }

  /** Two's-complement negation `~a + 1`, i.e. `0 - a` modulo 2^256. */
  function Negate(a: UInt256): (r: UInt256)
    ensures ToBig(r) == (MODULUS - ToBig(a)) % MODULUS
  {
    Add(Not(a), One)
  }

  /** `a.CompareTo(b)`: the sign of `a - b`, found from the most significant word down. */
  function CompareTo(a: UInt256, b: UInt256): (c: int)
    ensures -1 <= c <= 1
    ensures c < 0 <==> ToBig(a) < ToBig(b)
    ensures c == 0 <==> ToBig(a) == ToBig(b)
    ensures c > 0 <==> ToBig(a) > ToBig(b)
  {
    Cmp(a, b)
  }

  // ---------------------------------------------------------------------
  // Decimal rendering
  // ---------------------------------------------------------------------

  const Ten: UInt256 := [10, 0, 0, 0]

  /** A value below 2^64 sits entirely in the lowest word. */
  lemma LowWord(x: UInt256)
    requires ToBig(x) < BASE
    ensures x[0] == ToBig(x)
  {
    Val4(x);
  }

  /** `a.ToString()`: decimal digits produced by repeated division by ten,
      the last digit first. */
  function ToString(a: UInt256): (s: string)
    ensures s == Oracle.ToDecimalString(ToBig(a))
    decreases ToBig(a)
  {
    var v := ToBig(a);
    if v < 10 then
      LowWord(a);
      [Oracle.DigitChar(a[0])]
    else
      Val4(Ten);
      var q, d := Divide(a, Ten), Mod(a, Ten);

      LowWord(d);
      var s := ToString(q) + [Oracle.DigitChar(d[0])];
      assert s == Oracle.NatToDecimal(v / 10) + [Oracle.DigitChar(v % 10)];
      s
  }
}
