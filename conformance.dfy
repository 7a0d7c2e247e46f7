/** The conformance suite's assertions for the unsigned type, one lemma per
    test method: for operands that are values of the type, and outside the
    cases the test skips, the operation's result converted back to an integer
    equals the reference expression the test computes, exactly as written
    there (truncating `%` and `/`, `<<`, `>>`, `BigInteger.Pow`,
    `BigInteger.ModPow`).  For this type the test's post-processing is the
    identity. */
module UInt256Tests {
  import opened Arith
  import opened Oracle
  import U = Unsigned

  /** A value of the type is its own residue modulo 2^256. */
  lemma Small(x: int)
    requires 0 <= x < TWO_256
    ensures TMod(x, TWO_256) == x
  {
    TruncatedNonNegative(x, TWO_256);
    U.SmallResidue(x, TWO_256);
  }

  /** A remainder by a modulus of the type, further reduced modulo 2^256. */
  lemma SmallRemainder(x: int, M: int)
    requires 0 <= x && 0 < M < TWO_256
    ensures TMod(TMod(x, M), TWO_256) == x % M
  {
    TruncatedNonNegative(x, M);
    Small(x % M);
  }

  // Each test's assertion, first for operands given by their words together
  // with the integers they stand for (the lemmas named `...Of`), then for
  // operands converted from integers as the test does.

  lemma AddOf(a: U.UInt256, b: U.UInt256, A: int, B: int)
    requires U.ToBig(a) == A && U.ToBig(b) == B
    ensures U.ToBig(U.Add(a, b)) == TMod(A + B, TWO_256)
  {
    TruncatedNonNegative(A + B, TWO_256);
    ModOfEqual(U.ToBig(a) + U.ToBig(b), A + B, U.MODULUS, TWO_256);
  }

  lemma Add(A: int, B: int)
    requires InUnsignedRange(A) && InUnsignedRange(B)
    ensures U.ToBig(U.Add(U.FromBig(A), U.FromBig(B))) == TMod(A + B, TWO_256)
  {
    AddOf(U.FromBig(A), U.FromBig(B), A, B);
  }

  lemma AddModOf(a: U.UInt256, b: U.UInt256, m: U.UInt256, A: int, B: int, M: int)
    requires U.ToBig(a) == A && U.ToBig(b) == B && U.ToBig(m) == M
    requires M != 0
    ensures U.ToBig(U.AddMod(a, b, m)) == TMod(TMod(A + B, M), TWO_256)
  {
    SmallRemainder(A + B, M);
    ModOfEqual(U.ToBig(a) + U.ToBig(b), A + B, U.ToBig(m), M);
  }

  lemma AddMod(A: int, B: int, M: int)
    requires InUnsignedRange(A) && InUnsignedRange(B) && InUnsignedRange(M)
    requires M != 0
    ensures U.ToBig(U.AddMod(U.FromBig(A), U.FromBig(B), U.FromBig(M)))
         == TMod(TMod(A + B, M), TWO_256)
  {
    AddModOf(U.FromBig(A), U.FromBig(B), U.FromBig(M), A, B, M);
  }

  lemma SubtractOf(a: U.UInt256, b: U.UInt256, A: int, B: int)
    requires U.ToBig(a) == A && U.ToBig(b) == B
    requires A >= B
    ensures U.ToBig(U.Subtract(a, b)) == TMod(A - B, TWO_256)
  {
    Small(A - B);
  }

  /** The test skips `A < B`. */
  lemma Subtract(A: int, B: int)
    requires InUnsignedRange(A) && InUnsignedRange(B)
    requires A >= B
    ensures U.ToBig(U.Subtract(U.FromBig(A), U.FromBig(B))) == TMod(A - B, TWO_256)
  {
    SubtractOf(U.FromBig(A), U.FromBig(B), A, B);
  }

  lemma MultiplyOf(a: U.UInt256, b: U.UInt256, A: int, B: int)
    requires U.ToBig(a) == A && U.ToBig(b) == B
    ensures U.ToBig(U.Multiply(a, b)) == TMod(A * B, TWO_256)
  {
    MulLeMono(0, A, B);
    TruncatedNonNegative(A * B, TWO_256);
    MulOfEqual(U.ToBig(a), A, U.ToBig(b), B);
    ModOfEqual(U.ToBig(a) * U.ToBig(b), A * B, U.MODULUS, TWO_256);
  }

  lemma Multiply(A: int, B: int)
    requires InUnsignedRange(A) && InUnsignedRange(B)
    ensures U.ToBig(U.Multiply(U.FromBig(A), U.FromBig(B))) == TMod(A * B, TWO_256)
  {
    MultiplyOf(U.FromBig(A), U.FromBig(B), A, B);
  }

  lemma MultiplyModOf(a: U.UInt256, b: U.UInt256, m: U.UInt256, A: int, B: int, M: int)
    requires U.ToBig(a) == A && U.ToBig(b) == B && U.ToBig(m) == M
    requires M != 0
    ensures U.ToBig(U.MultiplyMod(a, b, m)) == TMod(TMod(A * B, M), TWO_256)
  {
    MulLeMono(0, A, B);
    SmallRemainder(A * B, M);
    MulOfEqual(U.ToBig(a), A, U.ToBig(b), B);
    ModOfEqual(U.ToBig(a) * U.ToBig(b), A * B, U.ToBig(m), M);
  }

  lemma MultiplyMod(A: int, B: int, M: int)
    requires InUnsignedRange(A) && InUnsignedRange(B) && InUnsignedRange(M)
    requires M != 0
    ensures U.ToBig(U.MultiplyMod(U.FromBig(A), U.FromBig(B), U.FromBig(M)))
         == TMod(TMod(A * B, M), TWO_256)
  {
    MultiplyModOf(U.FromBig(A), U.FromBig(B), U.FromBig(M), A, B, M);
  }

  lemma DivOf(a: U.UInt256, b: U.UInt256, A: int, B: int)
    requires U.ToBig(a) == A && U.ToBig(b) == B
    requires B != 0
    ensures U.ToBig(U.Divide(a, b)) == TMod(TDiv(A, B), TWO_256)
  {
    TruncatedNonNegative(A, B);
    DivAtMost(A, B);
    Small(A / B);
    DivOfEqual(U.ToBig(a), A, U.ToBig(b), B);
  }

  lemma Div(A: int, B: int)
    requires InUnsignedRange(A) && InUnsignedRange(B)
    requires B != 0
    ensures U.ToBig(U.Divide(U.FromBig(A), U.FromBig(B))) == TMod(TDiv(A, B), TWO_256)
  {
    DivOf(U.FromBig(A), U.FromBig(B), A, B);
  }

  lemma ExpOf(a: U.UInt256, e: U.UInt256, A: int, n: nat)
    requires U.ToBig(a) == A && U.ToBig(e) == n
    ensures U.ToBig(U.Exp(a, e)) == TMod(Pow(A, n), TWO_256)
  {
    PowNonNegative(A, n);
    TruncatedNonNegative(Pow(A, n), TWO_256);
    ModOfEqual(Pow(U.ToBig(a), U.ToBig(e)), Pow(A, n), U.MODULUS, TWO_256);
  }

  /** The exponent is a C# `int` converted to the type. */
  lemma Exp(A: int, n: int)
    requires InUnsignedRange(A) && InInt32Range(n)
    requires n >= 0
    ensures U.ToBig(U.Exp(U.FromBig(A), U.FromBig(n))) == TMod(Pow(A, n), TWO_256)
  {
    ExpOf(U.FromBig(A), U.FromBig(n), A, n);
  }

  lemma ExpModOf(a: U.UInt256, e: U.UInt256, m: U.UInt256, A: int, B: nat, M: int)
    requires U.ToBig(a) == A && U.ToBig(e) == B && U.ToBig(m) == M
    requires M != 0
    ensures U.ToBig(U.ExpMod(a, e, m)) == TMod(ModPow(A, B, M), TWO_256)
  {
    PowNonNegative(A, B);
    SmallRemainder(Pow(A, B), M);
    ModOfEqual(Pow(U.ToBig(a), U.ToBig(e)), Pow(A, B), U.ToBig(m), M);
  }

  lemma ExpMod(A: int, B: int, M: int)
    requires InUnsignedRange(A) && InUnsignedRange(B) && InUnsignedRange(M)
    requires M != 0
    ensures U.ToBig(U.ExpMod(U.FromBig(A), U.FromBig(B), U.FromBig(M)))
         == TMod(ModPow(A, B, M), TWO_256)
  {
    ExpModOf(U.FromBig(A), U.FromBig(B), U.FromBig(M), A, B, M);
  }

  lemma LshOf(a: U.UInt256, n: nat, A: int)
    requires U.ToBig(a) == A
    ensures U.ToBig(U.LeftShift(a, n)) == TMod(ShiftLeft(A, n), TWO_256)
  {
    var p := Pow(2, n);
    MulLeMono(0, A, p);
    TruncatedNonNegative(A * p, TWO_256);
    MulOfEqual(U.ToBig(a), A, p, p);
    ModOfEqual(U.ToBig(a) * p, A * p, U.MODULUS, TWO_256);
  }

  /** The shift amount is a C# `int`; the test skips zero. */
  lemma Lsh(A: int, n: int)
    requires InUnsignedRange(A) && InInt32Range(n)
    requires n > 0
    ensures U.ToBig(U.LeftShift(U.FromBig(A), n)) == TMod(ShiftLeft(A, n), TWO_256)
  {
    LshOf(U.FromBig(A), n, A);
  }

  lemma RshOf(a: U.UInt256, n: nat, A: int)
    requires U.ToBig(a) == A
    ensures U.ToBig(U.RightShift(a, n)) == TMod(ShiftRight(A, n), TWO_256)
  {
    var p := Pow(2, n);
    DivAtMost(A, p);
    Small(A / p);
    DivOfEqual(U.ToBig(a), A, p, p);
  }

  lemma Rsh(A: int, n: int)
    requires InUnsignedRange(A) && InInt32Range(n)
    requires n > 0
    ensures U.ToBig(U.RightShift(U.FromBig(A), n)) == TMod(ShiftRight(A, n), TWO_256)
  {
    RshOf(U.FromBig(A), n, A);
  }

  lemma ToBigIntegerAndBack(A: int)
    requires InUnsignedRange(A)
    ensures U.ToBig(U.FromBig(A)) == A
  {
  }

  lemma ToString(A: int)
    requires InUnsignedRange(A)
    ensures U.ToString(U.FromBig(A)) == ToDecimalString(A)
  {
  }

  lemma ZeroIsMinValue()
    ensures U.Zero == U.MinValue
  {
  }

  lemma ZeroIsZero()
    ensures U.Zero == U.FromBig(0)
  {
    U.ConstantValues();
    U.ToBigInjective(U.Zero, U.FromBig(0));
  }

  lemma IsZero()
    ensures U.IsZero(U.Zero) && !U.IsZero(U.One)
  {
  }

  lemma OneIsOne()
    ensures U.One == U.FromBig(1)
  {
    U.ConstantValues();
    U.ToBigInjective(U.One, U.FromBig(1));
  }

  lemma IsOne()
    ensures U.IsOne(U.One) && !U.IsOne(U.Zero)
  {
  }

  /** The test's `maxValue` for this type is 2^256 - 1. */
  lemma MaxValueIsCorrect()
    ensures U.MaxValue == U.FromBig(TWO_256 - 1)
  {
    U.ConstantValues();
    U.ToBigInjective(U.MaxValue, U.FromBig(TWO_256 - 1));
  }
}

/** The conformance suite's assertions for the signed type: the same test
    methods, run on values of the signed type, with every expected value
    passed through `Postprocess`; and the signed-only SubtractMod. */
module Int256Tests {
  import opened Arith
  import opened Oracle
  import S = Signed

  /** A truncated remainder by a value of the signed type is itself a value
      of the type, so the tests' further reduction and post-processing leave
      it alone. */
  lemma SmallRemainder(x: int, M: int)
    requires InSignedRange(M) && M != 0
    ensures Postprocess(TMod(TMod(x, M), TWO_256)) == TMod(x, M)
  {
    var r := TMod(x, M);
    TruncatedRemainder(x, M);
    TModSmall(r, TWO_256);
  }

  /** The truncated remainder of the sum of two values, computed from their
      words, is the expected value the test computes from the integers those
      words stand for.  Stated as an implication, so that a caller has no
      precondition to establish. */
  lemma SumRemainder(a: S.Int256, b: S.Int256, m: S.Int256, A: int, B: int, M: int)
    ensures S.ToBig(a) == A && S.ToBig(b) == B && S.ToBig(m) == M && M != 0 ==>
              TMod(S.ToBig(a) + S.ToBig(b), S.ToBig(m)) == Postprocess(TMod(TMod(A + B, M), TWO_256))
  {
    if S.ToBig(a) == A && S.ToBig(b) == B && S.ToBig(m) == M && M != 0 {
      SmallRemainder(A + B, M);
    }
  }

  /** The same for the difference. */
  lemma DifferenceRemainder(a: S.Int256, b: S.Int256, m: S.Int256, A: int, B: int, M: int)
    ensures S.ToBig(a) == A && S.ToBig(b) == B && S.ToBig(m) == M && M != 0 ==>
              TMod(S.ToBig(a) - S.ToBig(b), S.ToBig(m)) == Postprocess(TMod(TMod(A - B, M), TWO_256))
  {
    if S.ToBig(a) == A && S.ToBig(b) == B && S.ToBig(m) == M && M != 0 {
      SmallRemainder(A - B, M);
    }
  }

  // As for the unsigned type: each assertion for operands given by their
  // words and the integers they stand for, then for operands converted from
  // integers.

  lemma AddOf(a: S.Int256, b: S.Int256, A: int, B: int)
    requires S.ToBig(a) == A && S.ToBig(b) == B
    ensures S.ToBig(S.Add(a, b)) == Postprocess(TMod(A + B, TWO_256))
  {
    PostprocessAfterReduction(A + B);
    PostprocessOfEqual(S.ToBig(a) + S.ToBig(b), A + B);
  }

  lemma Add(A: int, B: int)
    requires InSignedRange(A) && InSignedRange(B)
    ensures S.ToBig(S.Add(S.FromBig(A), S.FromBig(B))) == Postprocess(TMod(A + B, TWO_256))
  {
    AddOf(S.FromBig(A), S.FromBig(B), A, B);
  }

  lemma AddModOf(a: S.Int256, b: S.Int256, m: S.Int256, A: int, B: int, M: int)
    requires S.ToBig(a) == A && S.ToBig(b) == B && S.ToBig(m) == M
    requires M != 0
    ensures S.ToBig(S.AddMod(a, b, m)) == Postprocess(TMod(TMod(A + B, M), TWO_256))
  {
    SumRemainder(a, b, m, A, B, M);
  }

  lemma AddMod(A: int, B: int, M: int)
    requires InSignedRange(A) && InSignedRange(B) && InSignedRange(M)
    requires M != 0
    ensures S.ToBig(S.AddMod(S.FromBig(A), S.FromBig(B), S.FromBig(M)))
         == Postprocess(TMod(TMod(A + B, M), TWO_256))
  {
    AddModOf(S.FromBig(A), S.FromBig(B), S.FromBig(M), A, B, M);
  }

  lemma SubtractOf(a: S.Int256, b: S.Int256, A: int, B: int)
    requires S.ToBig(a) == A && S.ToBig(b) == B
    ensures S.ToBig(S.Subtract(a, b)) == Postprocess(TMod(A - B, TWO_256))
  {
    PostprocessAfterReduction(A - B);
    PostprocessOfEqual(S.ToBig(a) - S.ToBig(b), A - B);
  }

  /** The signed suite inherits the skip of `A < B`. */
  lemma Subtract(A: int, B: int)
    requires InSignedRange(A) && InSignedRange(B)
    requires A >= B
    ensures S.ToBig(S.Subtract(S.FromBig(A), S.FromBig(B))) == Postprocess(TMod(A - B, TWO_256))
  {
    SubtractOf(S.FromBig(A), S.FromBig(B), A, B);
  }

  lemma SubtractModOf(a: S.Int256, b: S.Int256, m: S.Int256, A: int, B: int, M: int)
    requires S.ToBig(a) == A && S.ToBig(b) == B && S.ToBig(m) == M
    requires M != 0
    ensures S.ToBig(S.SubtractMod(a, b, m)) == Postprocess(TMod(TMod(A - B, M), TWO_256))
  {
    DifferenceRemainder(a, b, m, A, B, M);
  }

  lemma SubtractMod(A: int, B: int, M: int)
    requires InSignedRange(A) && InSignedRange(B) && InSignedRange(M)
    requires M != 0
    ensures S.ToBig(S.SubtractMod(S.FromBig(A), S.FromBig(B), S.FromBig(M)))
         == Postprocess(TMod(TMod(A - B, M), TWO_256))
  {
    SubtractModOf(S.FromBig(A), S.FromBig(B), S.FromBig(M), A, B, M);
  }

  lemma MultiplyOf(a: S.Int256, b: S.Int256, A: int, B: int)
    requires S.ToBig(a) == A && S.ToBig(b) == B
    ensures S.ToBig(S.Multiply(a, b)) == Postprocess(TMod(A * B, TWO_256))
  {
    PostprocessAfterReduction(A * B);
    MulOfEqual(S.ToBig(a), A, S.ToBig(b), B);
    PostprocessOfEqual(S.ToBig(a) * S.ToBig(b), A * B);
  }

  lemma Multiply(A: int, B: int)
    requires InSignedRange(A) && InSignedRange(B)
    ensures S.ToBig(S.Multiply(S.FromBig(A), S.FromBig(B))) == Postprocess(TMod(A * B, TWO_256))
  {
    MultiplyOf(S.FromBig(A), S.FromBig(B), A, B);
  }

  lemma MultiplyModOf(a: S.Int256, b: S.Int256, m: S.Int256, A: int, B: int, M: int)
    requires S.ToBig(a) == A && S.ToBig(b) == B && S.ToBig(m) == M
    requires M != 0
    ensures S.ToBig(S.MultiplyMod(a, b, m)) == Postprocess(TMod(TMod(A * B, M), TWO_256))
  {
    SmallRemainder(A * B, M);
    MulOfEqual(S.ToBig(a), A, S.ToBig(b), B);
    TModOfEqual(S.ToBig(a) * S.ToBig(b), A * B, S.ToBig(m), M);
  }

  lemma MultiplyMod(A: int, B: int, M: int)
    requires InSignedRange(A) && InSignedRange(B) && InSignedRange(M)
    requires M != 0
    ensures S.ToBig(S.MultiplyMod(S.FromBig(A), S.FromBig(B), S.FromBig(M)))
         == Postprocess(TMod(TMod(A * B, M), TWO_256))
  {
    MultiplyModOf(S.FromBig(A), S.FromBig(B), S.FromBig(M), A, B, M);
  }

  lemma DivOf(a: S.Int256, b: S.Int256, A: int, B: int)
    requires S.ToBig(a) == A && S.ToBig(b) == B
    requires B != 0
    ensures S.ToBig(S.Divide(a, b)) == Postprocess(TMod(TDiv(A, B), TWO_256))
  {
    PostprocessAfterReduction(TDiv(A, B));
  }

  lemma Div(A: int, B: int)
    requires InSignedRange(A) && InSignedRange(B)
    requires B != 0
    ensures S.ToBig(S.Divide(S.FromBig(A), S.FromBig(B))) == Postprocess(TMod(TDiv(A, B), TWO_256))
  {
    DivOf(S.FromBig(A), S.FromBig(B), A, B);
  }

  lemma ExpOf(a: S.Int256, e: S.Int256, A: int, n: nat)
    requires S.ToBig(a) == A && S.ToBig(e) == n
    ensures S.ToBig(S.Exp(a, e)) == Postprocess(TMod(Pow(A, n), TWO_256))
  {
    PostprocessAfterReduction(Pow(A, n));
  }

  lemma Exp(A: int, n: int)
    requires InSignedRange(A) && InInt32Range(n)
    requires n >= 0
    ensures S.ToBig(S.Exp(S.FromBig(A), S.FromBig(n))) == Postprocess(TMod(Pow(A, n), TWO_256))
  {
    ExpOf(S.FromBig(A), S.FromBig(n), A, n);
  }

  lemma ExpModOf(a: S.Int256, e: S.Int256, m: S.Int256, A: int, B: nat, M: int)
    requires S.ToBig(a) == A && S.ToBig(e) == B && S.ToBig(m) == M
    requires M != 0
    ensures S.ToBig(S.ExpMod(a, e, m)) == Postprocess(TMod(ModPow(A, B, M), TWO_256))
  {
    SmallRemainder(Pow(A, B), M);
  }

  /** The test skips negative exponents. */
  lemma ExpMod(A: int, B: int, M: int)
    requires InSignedRange(A) && InSignedRange(B) && InSignedRange(M)
    requires M != 0 && B >= 0
    ensures S.ToBig(S.ExpMod(S.FromBig(A), S.FromBig(B), S.FromBig(M)))
         == Postprocess(TMod(ModPow(A, B, M), TWO_256))
  {
    ExpModOf(S.FromBig(A), S.FromBig(B), S.FromBig(M), A, B, M);
  }

  lemma LshOf(a: S.Int256, n: nat, A: int)
    requires S.ToBig(a) == A
    ensures S.ToBig(S.LeftShift(a, n)) == Postprocess(TMod(ShiftLeft(A, n), TWO_256))
  {
    PostprocessAfterReduction(ShiftLeft(A, n));
  }

  lemma Lsh(A: int, n: int)
    requires InSignedRange(A) && InInt32Range(n)
    requires n > 0
    ensures S.ToBig(S.LeftShift(S.FromBig(A), n)) == Postprocess(TMod(ShiftLeft(A, n), TWO_256))
  {
    LshOf(S.FromBig(A), n, A);
  }

  lemma RshOf(a: S.Int256, n: nat, A: int)
    requires S.ToBig(a) == A && InSignedRange(A)
    ensures S.ToBig(S.RightShift(a, n)) == Postprocess(TMod(ShiftRight(A, n), TWO_256))
  {
    var x := ShiftRight(A, n);
    ShiftStaysInRange(A, n);
    TModSmall(x, TWO_256);
    PostprocessFacts(x, 0);
  }

  lemma Rsh(A: int, n: int)
    requires InSignedRange(A) && InInt32Range(n)
    requires n > 0
    ensures S.ToBig(S.RightShift(S.FromBig(A), n)) == Postprocess(TMod(ShiftRight(A, n), TWO_256))
  {
    RshOf(S.FromBig(A), n, A);
  }

  /** A floor shift moves a value toward -1 or 0, never out of the signed range. */
  lemma ShiftStaysInRange(A: int, n: nat)
    requires InSignedRange(A)
    ensures InSignedRange(ShiftRight(A, n))
  {
    var p := Pow(2, n);
    if A >= 0 {
      DivAtMost(A, p);
    } else {
      FloorOfComplement(A, p);
      DivAtMost(-A - 1, p);
    }
  }

  lemma ToBigIntegerAndBack(A: int)
    requires InSignedRange(A)
    ensures S.ToBig(S.FromBig(A)) == A
  {
  }

  lemma ToString(A: int)
    requires InSignedRange(A)
    ensures S.ToString(S.FromBig(A)) == ToDecimalString(A)
  {
  }
}
