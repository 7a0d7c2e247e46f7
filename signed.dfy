/** Int256: the signed 256-bit value, a 256-bit pattern read as two's
    complement, so that it ranges over [-2^255, 2^255).  Addition,
    subtraction, multiplication, exponentiation and the left shift are the
    unsigned operations on the pattern; division, the modular operations, the
    right shift, comparison and the decimal rendering are sign-aware. */
module Signed {
  import opened Arith
  import opened Limbs
  import opened LimbDivision
  import U = Unsigned
  import Oracle

  const TWO_256: int := Oracle.TWO_256
  const TWO_255: int := Oracle.TWO_255
  /** Bit 255 is bit 63 of the top word. */
  const SIGN_WORD: int := 0x8000_0000_0000_0000

  datatype Int256 = Int256(bits: U.UInt256)

  /** The sign bit, bit 255 of the pattern. */
  function IsNegative(x: Int256): (b: bool)
    ensures b <==> U.ToBig(x.bits) >= TWO_255
  {
    U.Val4(x.bits);
    x.bits[3] >= SIGN_WORD
  }

  /** `Convert(out BigInteger)`: the pattern read as two's complement, which
      is exactly what the signed suite's `Postprocess` makes of the pattern's
      unsigned value. */
  function ToBig(x: Int256): (v: int)
    ensures Oracle.InSignedRange(v)
    ensures v < 0 <==> IsNegative(x)
    ensures v == Oracle.Postprocess(U.ToBig(x.bits))
  {
    Oracle.PostprocessResidue(U.ToBig(x.bits));
    U.SmallResidue(U.ToBig(x.bits), TWO_256);
    if IsNegative(x) then U.ToBig(x.bits) - TWO_256 else U.ToBig(x.bits)
  }

  /** The pattern's unsigned value is the residue of the signed value modulo 2^256. */
  lemma BitsAreResidue(x: Int256)
    ensures ToBig(x) % TWO_256 == U.ToBig(x.bits)
    ensures U.ToBig(x.bits) % TWO_256 == U.ToBig(x.bits)
  {
    U.SmallResidue(U.ToBig(x.bits), TWO_256);
    DivModUnique(ToBig(x), TWO_256, if IsNegative(x) then -1 else 0, U.ToBig(x.bits));
  }

  /** A pattern congruent to `v` modulo 2^256 reads as `Postprocess(v)`. */
  lemma Wraps(r: Int256, v: int)
    requires U.ToBig(r.bits) % TWO_256 == v % TWO_256
    ensures ToBig(r) == Oracle.Postprocess(v)
  {
    Oracle.PostprocessCongruent(U.ToBig(r.bits), v);
  }

  /** `new Int256(v)` for a value of the type: the pattern of `v mod 2^256`. */
  function FromBig(v: int): (x: Int256)
    requires Oracle.InSignedRange(v)
    ensures ToBig(x) == v
  {
    var x := Int256(U.FromBig(v % TWO_256));
    ModOfMod(v, TWO_256);
    Wraps(x, v);
    Oracle.PostprocessFacts(v, 0);
    x
  }

  /** Conversion from an integer and back is the identity in both directions. */
  lemma ConvertRoundTrip(x: Int256, v: int)
    requires Oracle.InSignedRange(v)
    ensures FromBig(ToBig(x)) == x
    ensures ToBig(FromBig(v)) == v
  {
    var y := FromBig(ToBig(x));
    BitsAreResidue(x);
    U.ToBigInjective(y.bits, x.bits);
  }

  // ---------------------------------------------------------------------
  // Constants
  // ---------------------------------------------------------------------

  const Zero: Int256 := Int256(U.Zero)
  const One: Int256 := Int256(U.One)
  const MinValue: Int256 := Int256([0, 0, 0, SIGN_WORD])
  const MaxValue: Int256 := Int256([BASE - 1, BASE - 1, BASE - 1, SIGN_WORD - 1])

  /** The constants stand for 0, 1, -2^255 and 2^255 - 1, the bounds of the type. */
  lemma ConstantValues()
    ensures ToBig(Zero) == 0 && ToBig(One) == 1
    ensures ToBig(MinValue) == -TWO_255 && ToBig(MaxValue) == TWO_255 - 1
    ensures forall x: Int256 :: ToBig(MinValue) <= ToBig(x) <= ToBig(MaxValue)
  {
    U.ConstantValues();
    U.Val4(MinValue.bits);
    U.Val4(MaxValue.bits);
  }

  // ---------------------------------------------------------------------
  // Operations on the bit pattern
  // ---------------------------------------------------------------------

  /** `a.Add(b, out res)`: the unsigned sum of the patterns. */
  function Add(a: Int256, b: Int256): (r: Int256)
    ensures ToBig(r) == Oracle.Postprocess(ToBig(a) + ToBig(b))
  {
    var r := Int256(U.Add(a.bits, b.bits));
    BitsAreResidue(a);
    BitsAreResidue(b);
    Oracle.CongruentOps(U.ToBig(a.bits), ToBig(a), U.ToBig(b.bits), ToBig(b), TWO_256);
    ModOfMod(U.ToBig(a.bits) + U.ToBig(b.bits), TWO_256);
    Wraps(r, ToBig(a) + ToBig(b));
    r
  }

  /** `a.Subtract(b, out res)`: the unsigned difference of the patterns. */
  function Subtract(a: Int256, b: Int256): (r: Int256)
    ensures ToBig(r) == Oracle.Postprocess(ToBig(a) - ToBig(b))
  {
    var r := Int256(U.Subtract(a.bits, b.bits));
    BitsAreResidue(a);
    BitsAreResidue(b);
    Oracle.CongruentOps(U.ToBig(a.bits), ToBig(a), U.ToBig(b.bits), ToBig(b), TWO_256);
    ModOfMod(U.ToBig(a.bits) - U.ToBig(b.bits), TWO_256);
    Wraps(r, ToBig(a) - ToBig(b));
    r
  }

  /** `a.Multiply(b, out res)`: the low 256 bits of the product of the
      patterns, which are those of the signed product. */
  function Multiply(a: Int256, b: Int256): (r: Int256)
    ensures ToBig(r) == Oracle.Postprocess(ToBig(a) * ToBig(b))
  {
    var r := Int256(U.Multiply(a.bits, b.bits));
    BitsAreResidue(a);
    BitsAreResidue(b);
    Oracle.CongruentOps(U.ToBig(a.bits), ToBig(a), U.ToBig(b.bits), ToBig(b), TWO_256);
    ModOfMod(U.ToBig(a.bits) * U.ToBig(b.bits), TWO_256);
    Wraps(r, ToBig(a) * ToBig(b));
    r
  }

  /** `a.Exp(e, out res)`: the unsigned power of the patterns; for a
      non-negative exponent this is the signed power, wrapped. */
  function Exp(a: Int256, e: Int256): (r: Int256)
    ensures ToBig(r) == Oracle.Postprocess(Pow(ToBig(a), U.ToBig(e.bits)))
    ensures ToBig(e) >= 0 ==> ToBig(r) == Oracle.Postprocess(Pow(ToBig(a), ToBig(e)))
  {
    var r := Int256(U.Exp(a.bits, e.bits));
    var A, UA, E := ToBig(a), U.ToBig(a.bits), U.ToBig(e.bits);
    BitsAreResidue(a);
    assert A % TWO_256 == UA;
    PowMod(A, E, TWO_256);
    assert Pow(UA, E) % TWO_256 == Pow(A, E) % TWO_256;
    ModOfMod(Pow(UA, E), TWO_256);
    assert U.ToBig(r.bits) == Pow(UA, E) % TWO_256;
    Wraps(r, Pow(A, E));
    r
  }

  /** `a.LeftShift(n, out res)`: the logical shift of the pattern. */
  function LeftShift(a: Int256, n: nat): (r: Int256)
    ensures ToBig(r) == Oracle.Postprocess(Oracle.ShiftLeft(ToBig(a), n))
  {
    var r := Int256(U.LeftShift(a.bits, n));
    BitsAreResidue(a);
    Oracle.CongruentOps(U.ToBig(a.bits), ToBig(a), Pow(2, n), Pow(2, n), TWO_256);
    ModOfMod(U.ToBig(a.bits) * Pow(2, n), TWO_256);
    Wraps(r, ToBig(a) * Pow(2, n));
    r
  }

  // ---------------------------------------------------------------------
  // Sign-aware operations
  // ---------------------------------------------------------------------

  /** `a.RightShift(n, out res)`: arithmetic shift.  A negative value is
      complemented, shifted logically (bringing in zeros) and complemented
      back, so ones are brought in from the top. */
  function RightShift(a: Int256, n: nat): (r: Int256)
    ensures ToBig(r) == Oracle.ShiftRight(ToBig(a), n)
  {
    var p := Pow(2, n);
    if IsNegative(a) then
      var c := U.Not(a.bits);
      var s := U.RightShift(c, n);
      var r := Int256(U.Not(s));
      DivAtMost(U.ToBig(c), p);
      FloorOfComplement(ToBig(a), p);
      r
    else
      var r := Int256(U.RightShift(a.bits, n));
      DivAtMost(U.ToBig(a.bits), p);
      r
  }

  /** The magnitude `|a|` as an unsigned value; for the least value -2^255
      it is 2^255, which the unsigned type holds. */
  function Magnitude(a: Int256): (m: U.UInt256)
    ensures U.ToBig(m) == Oracle.Abs(ToBig(a))
    ensures U.ToBig(m) <= TWO_255
  {
    if IsNegative(a) then
      U.SmallResidue(TWO_256 - U.ToBig(a.bits), TWO_256);
      U.Negate(a.bits)
    else a.bits
  }

  /** A value is its magnitude with its sign. */
  lemma MagnitudeAndSign(a: Int256)
    ensures ToBig(a) == ApplySign(IsNegative(a), U.ToBig(Magnitude(a)))
  {
  }

  /** A signed magnitude: `-v` when `neg` holds, `v` otherwise. */
  function ApplySign(neg: bool, v: int): int
  {
    if neg then -v else v
  }

  /** The signed value with the given sign and unsigned magnitude, wrapped
      into the type. */
  function WithSign(neg: bool, v: U.UInt256): (r: Int256)
    ensures ToBig(r) == Oracle.Postprocess(ApplySign(neg, U.ToBig(v)))
  {
    if neg then
      var r := Int256(U.Negate(v));
      ModOfMod(TWO_256 - U.ToBig(v), TWO_256);
      ModAddMultiple(-(U.ToBig(v) as int), 1, TWO_256);
      Wraps(r, -(U.ToBig(v) as int));
      r
    else
      var r := Int256(v);
      Oracle.PostprocessResidue(U.ToBig(v));
      r
  }

  /** `a.Divide(b, out res)`: the unsigned quotient of the magnitudes with the
      sign of the quotient; the one overflow, `-2^255 / -1`, wraps to -2^255. */
  function Divide(a: Int256, b: Int256): (r: Int256)
    requires ToBig(b) != 0
    ensures ToBig(r) == Oracle.Postprocess(Oracle.TDiv(ToBig(a), ToBig(b)))
  {
    var q := U.Divide(Magnitude(a), Magnitude(b));
    WithSign(IsNegative(a) != IsNegative(b), q)
  }

  /** The full-width signed sum of two signed magnitudes, as a sign and a
      five-word magnitude: equal signs add the magnitudes (a carry may reach
      the fifth word), opposite signs subtract the smaller magnitude from the
      larger one and keep the larger one's sign. */
  function SignedSum(na: bool, ma: U.UInt256, nb: bool, mb: U.UInt256): (s: (bool, seq<Limb>))
    ensures |s.1| == 5
    ensures ApplySign(s.0, Val(s.1)) == ApplySign(na, U.ToBig(ma)) + ApplySign(nb, U.ToBig(mb))
  {
    if na == nb then (na, U.WideSum(ma, mb))
    else if U.CompareTo(ma, mb) >= 0 then (na, Gap(ma, mb))
    else (nb, Gap(mb, ma))
  }

  /** The difference of two magnitudes, the larger first, as five words. */
  function Gap(x: U.UInt256, y: U.UInt256): (w: seq<Limb>)
    requires U.ToBig(x) >= U.ToBig(y)
    ensures |w| == 5 && Val(w) == U.ToBig(x) - U.ToBig(y)
  {
    var d := U.Subtract(x, y);
    ValSnoc(d, 0);
    d + [0]
  }

  /** The truncated remainder of a signed magnitude by `m`: the unsigned
      remainder of the magnitude by `|m|`, with the magnitude's sign.  Its
      size is below `|m| <= 2^255`, so it always fits the type. */
  function Reduce(neg: bool, mag: seq<Limb>, m: Int256): (r: Int256)
    requires |mag| > 0 && ToBig(m) != 0
    ensures ToBig(r) == Oracle.TMod(ApplySign(neg, Val(mag)), ToBig(m))
  {
    var mm := Magnitude(m);
    var v: U.UInt256 := DivMod(mag, mm).1;
    ModOfEqual(Val(mag), Val(mag), Val(mm), Oracle.Abs(ToBig(m)));
    SignedRemainder(neg, Val(mag), ToBig(m), U.ToBig(v));
    WithSign(neg, v)
  }

  /** The remainder of a magnitude by `|m|`, given the magnitude's sign, is the
      truncated remainder of the signed magnitude, and it lies in the type. */
  lemma SignedRemainder(neg: bool, x: nat, m: int, r: int)
    requires Oracle.InSignedRange(m) && m != 0 && r == x % Oracle.Abs(m)
    ensures Oracle.Postprocess(ApplySign(neg, r)) == Oracle.TMod(ApplySign(neg, x), m)
  {
    Oracle.TModOfSigned(neg, x, m);
    Oracle.PostprocessFacts(ApplySign(neg, r), 0);
  }

  /** The signed sum of `a` and of `b` or `-b`, computed on magnitudes. */
  lemma SumOfMagnitudes(a: Int256, b: Int256, flip: bool, neg: bool, mag: seq<Limb>)
    requires (neg, mag) == SignedSum(IsNegative(a), Magnitude(a), IsNegative(b) != flip, Magnitude(b))
    ensures ApplySign(neg, Val(mag)) == if flip then ToBig(a) - ToBig(b) else ToBig(a) + ToBig(b)
  {
    MagnitudeAndSign(a);
    MagnitudeAndSign(b);
  }

  /** `a.AddMod(b, m, out res)`: the full-width sum's truncated remainder by `m`. */
  function AddMod(a: Int256, b: Int256, m: Int256): (r: Int256)
    requires ToBig(m) != 0
    ensures ToBig(r) == Oracle.TMod(ToBig(a) + ToBig(b), ToBig(m))
  {
    var (neg, mag) := SignedSum(IsNegative(a), Magnitude(a), IsNegative(b), Magnitude(b));
    var sum := ApplySign(neg, Val(mag));
    SumOfMagnitudes(a, b, false, neg, mag);
    var r := Reduce(neg, mag, m);
    assert ToBig(r) == Oracle.TMod(sum, ToBig(m));
    r
  }

  /** `a.SubtractMod(b, m, out res)`: the full-width difference's truncated
      remainder by `m`; the difference is the sum with `b`'s sign flipped. */
  function SubtractMod(a: Int256, b: Int256, m: Int256): (r: Int256)
    requires ToBig(m) != 0
    ensures ToBig(r) == Oracle.TMod(ToBig(a) - ToBig(b), ToBig(m))
  {
    var (neg, mag) := SignedSum(IsNegative(a), Magnitude(a), !IsNegative(b), Magnitude(b));
    var diff := ApplySign(neg, Val(mag));
    SumOfMagnitudes(a, b, true, neg, mag);
    var r := Reduce(neg, mag, m);
    assert ToBig(r) == Oracle.TMod(diff, ToBig(m));
    r
  }

  lemma SignedProduct(na: bool, x: int, nb: bool, y: int)
    ensures ApplySign(na, x) * ApplySign(nb, y) == ApplySign(na != nb, x * y)
  {
    Oracle.MulNeg(x, y);
  }

  /** `a.MultiplyMod(b, m, out res)`: the full 512-bit product of the
      magnitudes, signed, and its truncated remainder by `m`. */
  function MultiplyMod(a: Int256, b: Int256, m: Int256): (r: Int256)
    requires ToBig(m) != 0
    ensures ToBig(r) == Oracle.TMod(ToBig(a) * ToBig(b), ToBig(m))
  {
    var ma, mb := Magnitude(a), Magnitude(b);
    var p := MulWide(ma, mb);
    SignedProduct(IsNegative(a), U.ToBig(ma), IsNegative(b), U.ToBig(mb));
    MagnitudeAndSign(a);
    MagnitudeAndSign(b);
    assert ApplySign(IsNegative(a) != IsNegative(b), Val(p)) == ToBig(a) * ToBig(b);
    Reduce(IsNegative(a) != IsNegative(b), p, m)
  }

  /** The power of a signed base is the power of its magnitude, negated for a
      negative base and an odd exponent. */
  lemma SignedPower(x: int, e: nat)
    ensures Pow(x, e) == ApplySign(x < 0 && e % 2 == 1, Pow(Oracle.Abs(x), e))
  {
    if x < 0 {
      PowNeg(Oracle.Abs(x), e);
      assert -(Oracle.Abs(x) as int) == x;
    }
  }

  /** `a.ExpMod(e, m, out res)`: the unsigned modular power of the magnitudes,
      negated for a negative base and an odd exponent, which is
      `BigInteger.ModPow(a, e, m)`. */
  function ExpMod(a: Int256, e: Int256, m: Int256): (r: Int256)
    requires ToBig(e) >= 0 && ToBig(m) != 0
    ensures ToBig(r) == Oracle.ModPow(ToBig(a), ToBig(e), ToBig(m))
  {
    var p := U.ExpMod(Magnitude(a), e.bits, Magnitude(m));
    var neg := IsNegative(a) && e.bits[0] % 2 == 1;
    ExponentParity(e);
    ModPowOfMagnitudes(ToBig(a), ToBig(e), ToBig(m), U.ToBig(p), neg);
    WithSign(neg, p)
  }

  /** BigInteger.ModPow on a signed base: the modular power of the magnitudes
      with the sign of the power, already inside the signed range. */
  lemma ModPowOfMagnitudes(x: int, e: nat, m: int, p: int, neg: bool)
    requires Oracle.InSignedRange(m) && m != 0
    requires p == Pow(Oracle.Abs(x), e) % Oracle.Abs(m)
    requires neg == (x < 0 && e % 2 == 1)
    ensures Oracle.Postprocess(ApplySign(neg, p)) == Oracle.ModPow(x, e, m)
  {
    var v := Pow(Oracle.Abs(x), e);
    SignedPower(x, e);
    PowNonNegative(Oracle.Abs(x), e);
    Oracle.TModOfSigned(neg, v, m);
    assert Oracle.ModPow(x, e, m) == ApplySign(neg, p);
    Oracle.PostprocessFacts(ApplySign(neg, p), 0);
  }

  /** A non-negative exponent is odd exactly when its lowest word is. */
  lemma ExponentParity(e: Int256)
    requires ToBig(e) >= 0
    ensures ToBig(e) % 2 == e.bits[0] % 2
  {
    U.Val4(e.bits);
    var k := (U.ToBig(e.bits) - e.bits[0]) / 2;
    assert U.ToBig(e.bits) == e.bits[0] + k * 2;
    ModAddMultiple(e.bits[0], k, 2);
  }

  /** `a.CompareTo(b)`: a negative value is below every non-negative one;
      values of equal sign compare as their patterns do. */
  function CompareTo(a: Int256, b: Int256): (c: int)
    ensures -1 <= c <= 1
    ensures c < 0 <==> ToBig(a) < ToBig(b)
    ensures c == 0 <==> ToBig(a) == ToBig(b)
    ensures c > 0 <==> ToBig(a) > ToBig(b)
  {
    if IsNegative(a) && !IsNegative(b) then -1
    else if !IsNegative(a) && IsNegative(b) then 1
    else U.CompareTo(a.bits, b.bits)
  }

  /** `a.ToString()`: a `-` before the magnitude's digits for a negative value. */
  function ToString(a: Int256): (s: string)
    ensures s == Oracle.ToDecimalString(ToBig(a))
  {
    if IsNegative(a) then "-" + U.ToString(Magnitude(a)) else U.ToString(a.bits)
  }
}
