/** Restoring binary long division of word sequences: the dividend's bits are
    brought down one at a time, most significant first, into a partial
    remainder of the divisor's width, and the divisor is subtracted whenever
    it fits.  This yields the exact truncating quotient and remainder. */
module LimbDivision {
  import opened Arith
  import opened Limbs
  import opened LimbShifts

  /** One step: shift the partial remainder `r` up by one bit bringing in the
      dividend bit `t`, subtract the divisor `d` if it fits, and append the
      outcome to the partial quotient `q` as its new lowest bit. */
  function DivStep(q: seq<Limb>, r: seq<Limb>, d: seq<Limb>, t: nat): (res: (seq<Limb>, seq<Limb>))
    requires |r| == |d| && t <= 1
    requires Val(r) < Val(d)
    requires 2 * Val(q) + 1 < Pow(BASE, |q|)
    ensures |res.0| == |q| && |res.1| == |d|
    ensures Val(res.0) * Val(d) + Val(res.1) == 2 * (Val(q) * Val(d) + Val(r)) + t
    ensures Val(res.1) < Val(d)
  {
    var (r2, c) := MulLimb(r, 2, t);
    var fits := c != 0 || Cmp(r2, d) >= 0;
    var bit := if fits then 1 else 0;
    var (q2, cq) := MulLimb(q, 2, bit);
    NoCarry(Val(q2), cq, Pow(BASE, |q|), 2 * Val(q) + bit);
    var (r3, bo) := if fits then SubBorrow(r2, d, 0) else (r2, 0);
    ValBound(r2);
    ValBound(r3);
    ValBound(d);
    DivStepArith(Val(q), Val(r), Val(d), t, Val(r2), c, bit, Val(q2), Val(r3), bo, Pow(BASE, |d|));
    (q2, r3)
  }

  /** The arithmetic of one division step, on plain integers: `r2 + c*p` is
      the shifted remainder, and when the divisor fits, `r3 - bo*p` is `r2 - d`. */
  lemma DivStepArith(q: int, r: int, d: int, t: int, r2: int, c: int, bit: int,
                     q2: int, r3: int, bo: int, p: int)
    requires 0 <= r < d < p && 0 <= t <= 1 && 0 <= r2 < p && c >= 0 && 0 <= r3 < p
    requires r2 + c * p == 2 * r + t
    requires bit == (if c != 0 || r2 >= d then 1 else 0)
    requires q2 == 2 * q + bit
    requires bit == 1 ==> r3 - bo * p == r2 - d
    requires bit == 0 ==> r3 == r2 && bo == 0
    ensures q2 * d + r3 == 2 * (q * d + r) + t
    ensures r3 < d
  {
    if c != 0 {
      MulAtLeast(c, p);
    }
    assert bit == 1 <==> 2 * r + t >= d;
    if bit == 1 {
      // r3 and 2r + t - d are both in [0, p) and differ by a multiple of p
      var x := 2 * r + t - d;
      assert r3 == x + (bo - c) * p;
      DivModOf(r3, p, 0, r3);
      DivModOf(x + (bo - c) * p, p, bo - c, x);
    }
  }

  /** Long division by bits from the top down to bit `j`: the quotient and
      remainder of the dividend's prefix `Val(a) / 2^j` by `Val(d)`. */
  function LongDiv(a: seq<Limb>, d: seq<Limb>, j: nat): (res: (seq<Limb>, seq<Limb>))
    requires |a| > 0 && |d| > 0 && Val(d) > 0 && j <= 64 * |a|
    ensures |res.0| == |a| && |res.1| == |d|
    ensures Val(res.0) * Val(d) + Val(res.1) == Val(a) / Pow(2, j)
    ensures Val(res.1) < Val(d)
    decreases 64 * |a| - j
  {
    if j == 64 * |a| then
      ShrPastWidth(a, j);
      (Zeros(|a|), Zeros(|d|))
    else
      var (q, r) := LongDiv(a, d, j + 1);
      QuotientRoom(a, j, Val(q), Val(d), Val(r));
      var t := Bit(a, j);
      DivPow2Step(Val(a), j);
      DivStep(q, r, d, t)
  }

  /** The partial quotient of the prefix above bit `j` leaves room for one more bit. */
  lemma QuotientRoom(a: seq<Limb>, j: nat, q: nat, d: nat, r: nat)
    requires j < 64 * |a| && d > 0
    requires q * d + r == Val(a) / Pow(2, j + 1)
    ensures 2 * q + 1 < Pow(BASE, |a|)
  {
    var n := 64 * |a|;
    ValBound(a);
    BasePow(|a|);
    DivPow2Bound(Val(a), n, j + 1);
    MulAtLeast(d, 1);
    assert q <= q * d by {
      MulLeMono(1, d, q);
    }
    Pow2Factor(1, n - (j + 1));
    PowMonotone(2, n - j, n);
  }

  /** Quotient and remainder of the whole dividend: `Val(a) == q * Val(d) + r`
      with `0 <= r < Val(d)`. */
  function DivMod(a: seq<Limb>, d: seq<Limb>): (res: (seq<Limb>, seq<Limb>))
    requires |a| > 0 && |d| > 0 && Val(d) > 0
    ensures |res.0| == |a| && |res.1| == |d|
    ensures Val(res.0) == Val(a) / Val(d)
    ensures Val(res.1) == Val(a) % Val(d)
  {
    var (q, r) := LongDiv(a, d, 0);
    DivModUnique(Val(a), Val(d), Val(q), Val(r));
    (q, r)
  }
}
