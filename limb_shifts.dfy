/** Logical shifts of a word sequence across word boundaries: a shift by `n`
    bits is a shift by `n / 64` whole words followed by a shift by the
    remaining `n % 64` bits, whose overflow bits cross into the next word. */
module LimbShifts {
  import opened Arith
  import opened Limbs

  lemma SmallPow2(r: nat)
    requires r < 64
    ensures 0 < Pow(2, r) < BASE && Pow(2, r) * Pow(2, 64 - r) == BASE
  {
    PowStrict(2, r, 64);
    Pow2Factor(r, 64 - r);
    BaseIsPow2();
  }

  /** Left shift by `q` whole words, zero-filled from the bottom; the words
      shifted past the top are dropped. */
  function ShlWords(a: seq<Limb>, q: nat): (r: seq<Limb>)
    requires q <= |a|
    ensures |r| == |a|
    ensures Val(r) == (Val(a) * Pow(BASE, q)) % Pow(BASE, |a|)
  {
    var kept := a[..|a| - q];
    ShlWordsValue(a, q, Zeros(q), kept);
    Zeros(q) + kept
  }

  lemma ShlWordsValue(a: seq<Limb>, q: nat, z: seq<Limb>, kept: seq<Limb>)
    requires q <= |a| && z == Zeros(q) && kept == a[..|a| - q]
    ensures Val(z + kept) == (Val(a) * Pow(BASE, q)) % Pow(BASE, |a|)
  {
    ValAppend(z, kept);
    ValSplit(a, |a| - q);
    PowAdd(BASE, |a| - q, q);
    ScaledResidue(Val(z + kept), Val(kept), Val(a), Pow(BASE, |a| - q), Pow(BASE, q), Pow(BASE, |a|));
  }

  /** The arithmetic of a whole-word left shift: the kept low part, scaled,
      is the scaled value reduced modulo the scaled modulus. */
  lemma ScaledResidue(x: int, kept: int, v: int, m: int, k: int, p: int)
    requires m > 0 && k > 0 && p == m * k
    requires x == 0 + k * kept && kept == v % m
    ensures x == (v * k) % p
  {
    ModScale(v, m, k);
  }

  /** Left shift by `r < 64` bits: each word is multiplied by `2^r` and the bits
      that leave it are carried into the word above; the carry out of the top
      word is dropped. */
  function ShlBits(a: seq<Limb>, r: nat): (s: seq<Limb>)
    requires r < 64
    ensures |s| == |a|
    ensures Val(s) == (Val(a) * Pow(2, r)) % Pow(BASE, |a|)
  {
    SmallPow2(r);
    var (out, carry) := MulLimb(a, Pow(2, r), 0);
    ValBound(out);
    DivModOf(Val(a) * Pow(2, r), Pow(BASE, |a|), carry, Val(out));
    out
  }

  /** Logical left shift by any number of bits, keeping `|a|` words:
      `(Val(a) * 2^n) mod 2^(64*|a|)`; zero from `64*|a|` bits on. */
  function Shl(a: seq<Limb>, n: nat): (r: seq<Limb>)
    ensures |r| == |a|
    ensures Val(r) == (Val(a) * Pow(2, n)) % Pow(BASE, |a|)
  {
    if n >= 64 * |a| then
      ShlPastWidth(Val(a), |a|, n);
      Zeros(|a|)
    else
      var words := ShlWords(a, n / 64);
      var r := ShlBits(words, n % 64);
      ShlCompose(Val(a), |a|, n);
      r
  }

  lemma ShlPastWidth(v: int, len: nat, n: nat)
    requires n >= 64 * len
    ensures (v * Pow(2, n)) % Pow(BASE, len) == 0
  {
    BasePow(len);
    Pow2Factor(64 * len, n - 64 * len);
    var m, k := Pow(BASE, len), Pow(2, n - 64 * len);
    assert Pow(2, n) == m * k;
    ModMultipleZero(v, m, k);
  }

  lemma ShlCompose(v: int, len: nat, n: nat)
    ensures ((v * Pow(BASE, n / 64)) % Pow(BASE, len) * Pow(2, n % 64)) % Pow(BASE, len)
         == (v * Pow(2, n)) % Pow(BASE, len)
  {
    var m, q, r := Pow(BASE, len), n / 64, n % 64;
    var x, y := Pow(BASE, q), Pow(2, r);
    MulModLeft(v * x, y, m);
    BasePow(q);
    Pow2Factor(64 * q, r);
    assert x * y == Pow(2, n);
    MulAssoc(v, x, y);
  }

  /** Right shift by `q` whole words, zero-filled from the top. */
  function ShrWords(a: seq<Limb>, q: nat): (r: seq<Limb>)
    requires q <= |a|
    ensures |r| == |a|
    ensures Val(r) == Val(a) / Pow(BASE, q)
  {
    ValSplit(a, q);
    ValPadded(a[q..], q);
    a[q..] + Zeros(q)
  }

  /** Right shift by `r < 64` bits: each word keeps its high `64 - r` bits,
      moved down, and receives the low `r` bits of the word above (zero above
      the top word). */
  function ShrBits(a: seq<Limb>, r: nat): (s: seq<Limb>)
    requires r < 64
    ensures |s| == |a|
    ensures Val(s) == Val(a) / Pow(2, r)
    decreases |a|
  {
    if |a| == 0 then []
    else
      var w := ShrWord(a[0], if |a| > 1 then a[1] else 0, r);
      var rest := ShrBits(a[1..], r);
      ShrBitsValue(a, r, w, rest);
      [w] + rest
  }

  /** One word of a right shift by `r < 64` bits: the high `64 - r` bits of
      `lo`, moved down, below the low `r` bits of `hi`. */
  function ShrWord(lo: Limb, hi: Limb, r: nat): (w: Limb)
    requires r < 64
    ensures w == lo / Pow(2, r) + (hi % Pow(2, r)) * Pow(2, 64 - r)
  {
    SmallPow2(r);
    var p, p' := Pow(2, r), Pow(2, 64 - r);
    ShrWordFits(lo, hi, p, p');
    lo / p + (hi % p) * p'
  }

  lemma ShrBitsValue(a: seq<Limb>, r: nat, w: Limb, rest: seq<Limb>)
    requires r < 64 && |a| > 0
    requires w == ShrWord(a[0], if |a| > 1 then a[1] else 0, r)
    requires Val(rest) == Val(a[1..]) / Pow(2, r)
    ensures Val([w] + rest) == Val(a) / Pow(2, r)
  {
    SmallPow2(r);
    var p, p' := Pow(2, r), Pow(2, 64 - r);
    var above: Limb := if |a| > 1 then a[1] else 0;
    var v := Val(a[1..]);
    HighWordResidue(a[1..], p, p');
    ShrStep(a[0], v, above, p, p');
    ValCons(a);
    assert w == a[0] / p + (above % p) * p';
    assert Val(rest) == v / p;
    assert ([w] + rest)[1..] == rest;
    assert Val([w] + rest) == w + BASE * Val(rest);
    assert Val(a) == a[0] + BASE * v;
  }

  lemma ShrWordFits(lo: Limb, hi: Limb, p: int, p': int)
    requires p > 0 && p' > 0 && p * p' == BASE
    ensures 0 <= lo / p + (hi % p) * p' < BASE
  {
    DivAtMost(lo, p);
    MulLeMono(0, hi % p, p');
    DivBelow(lo, p, p');
    MulLeMono(hi % p, p - 1, p');
    assert (p - 1) * p' == BASE - p';
  }

  /** The low bits of the value of `s` are those of its lowest word. */
  lemma HighWordResidue(s: seq<Limb>, p: int, p': int)
    requires p > 0 && p' > 0 && p * p' == BASE
    ensures Val(s) % p == (if |s| > 0 then s[0] else 0) % p
  {
    if |s| > 0 {
      assert Val(s) == s[0] + (Val(s[1..]) * p') * p;
      ModAddMultiple(s[0], Val(s[1..]) * p', p);
    }
  }

  lemma ShrStep(a0: Limb, v: nat, above: Limb, p: int, p': int)
    requires p > 0 && p' > 0 && p * p' == BASE
    requires v % p == above % p
    ensures (a0 + BASE * v) / p == (a0 / p + (above % p) * p') + BASE * (v / p)
  {
    var q, s := v / p, v % p;
    assert BASE * v == (BASE * q + p' * s) * p by {
      assert v == p * q + s;
      assert BASE * v == BASE * (p * q) + (p * p') * s;
    }
    DivAddMultiple(a0, BASE * q + p' * s, p);
  }

  /** Logical right shift by any number of bits: `Val(a) / 2^n`, zero from
      `64*|a|` bits on. */
  function Shr(a: seq<Limb>, n: nat): (r: seq<Limb>)
    ensures |r| == |a|
    ensures Val(r) == Val(a) / Pow(2, n)
  {
    if n >= 64 * |a| then
      ShrPastWidth(a, n);
      Zeros(|a|)
    else
      var words := ShrWords(a, n / 64);
      var r := ShrBits(words, n % 64);
      BasePow(n / 64);
      Pow2Factor(64 * (n / 64), n % 64);
      DivDiv(Val(a), Pow(BASE, n / 64), Pow(2, n % 64));
      r
  }

  lemma ShrPastWidth(a: seq<Limb>, n: nat)
    requires n >= 64 * |a|
    ensures Val(a) / Pow(2, n) == 0
  {
    ValBound(a);
    BasePow(|a|);
    PowMonotone(2, 64 * |a|, n);
    DivModUnique(Val(a), Pow(2, n), 0, Val(a));
  }

  /** Bit `j` of the value (0 or 1), read off the lowest word after shifting right by `j`. */
  function Bit(a: seq<Limb>, j: nat): (b: nat)
    requires |a| > 0
    ensures b <= 1
    ensures b == (Val(a) / Pow(2, j)) % 2
  {
    var s := Shr(a, j);
    ValParity(s);
    s[0] % 2
  }
}
