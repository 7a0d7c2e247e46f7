/** The limb store: a multi-word natural number held as a little-endian
    sequence of 64-bit words (word 0 least significant), and the word-level
    primitives the 256-bit engine is built from.  The primitives work on any
    number of words; the engine uses four (and five or eight for the wide
    intermediates of AddMod and MultiplyMod). */
module Limbs {
  import opened Arith

  /** 2^64, the radix of one word. */
  const BASE: int := 0x1_0000_0000_0000_0000

  /** One 64-bit unsigned word. */
  type Limb = x: int | 0 <= x < BASE

  /** The number a little-endian word sequence stands for: `Σ s[i] * 2^(64*i)`. */
  function Val(s: seq<Limb>): nat
  {
    if |s| == 0 then 0 else s[0] + BASE * Val(s[1..])
  }

  /** `n` zero words. */
  function Zeros(n: nat): (z: seq<Limb>)
    ensures |z| == n && Val(z) == 0
  {
    if n == 0 then [] else [0] + Zeros(n - 1)
  }

  /** The `n`-word representation of a number below `BASE^n`: its base-2^64
      digits, least significant first. */
  function FromNat(v: nat, n: nat): (s: seq<Limb>)
    requires v < Pow(BASE, n)
    ensures |s| == n && Val(s) == v
    decreases n
  {
    if n == 0 then []
    else
      DivBelow(v, BASE, Pow(BASE, n - 1));
      var rest := FromNat(v / BASE, n - 1);
      var s := [v % BASE] + rest;
      assert s[1..] == rest;
      s
  }

  lemma BaseIsPow2()
    ensures Pow(2, 64) == BASE
  {
    assert Pow(2, 1) == 2;
    PowAdd(2, 1, 1);
    assert Pow(2, 2) == 4;
    PowAdd(2, 2, 2);
    assert Pow(2, 4) == 16;
    PowAdd(2, 4, 4);
    assert Pow(2, 8) == 256;
    PowAdd(2, 8, 8);
    assert Pow(2, 16) == 0x1_0000;
    PowAdd(2, 16, 16);
    assert Pow(2, 32) == 0x1_0000_0000;
    PowAdd(2, 32, 32);
  }

  /** `(2^64)^n == 2^(64*n)`. */
  lemma BasePow(n: nat)
    ensures Pow(BASE, n) == Pow(2, 64 * n)
  {
    BaseIsPow2();
    PowMul(2, 64, n);
  }

  lemma {:induction false} ValBound(s: seq<Limb>)
    ensures Val(s) < Pow(BASE, |s|)
    decreases |s|
  {
    if |s| > 0 {
      ValBound(s[1..]);
      assert Val(s) <= BASE - 1 + BASE * (Pow(BASE, |s| - 1) - 1);
    }
  }

  lemma {:induction false} ValAppend(s: seq<Limb>, t: seq<Limb>)
    ensures Val(s + t) == Val(s) + Pow(BASE, |s|) * Val(t)
    decreases |s|
  {
    if |s| == 0 {
      assert s + t == t;
    } else {
      assert (s + t)[1..] == s[1..] + t;
      ValAppend(s[1..], t);
      AppendStep(s[0], Val(s[1..]), Val(t), Pow(BASE, |s| - 1), Pow(BASE, |s|));
    }
  }

  /** The arithmetic of one step of ValAppend, on plain integers. */
  lemma AppendStep(x: int, v: int, w: int, p1: int, p: int)
    requires p == BASE * p1
    ensures x + BASE * (v + p1 * w) == (x + BASE * v) + p * w
  {
  }

  /** Splitting a word sequence at `k` splits its value into the residue and
      the quotient modulo `2^(64*k)`. */
  lemma ValSplit(s: seq<Limb>, k: nat)
    requires k <= |s|
    ensures Val(s[..k]) == Val(s) % Pow(BASE, k)
    ensures Val(s[k..]) == Val(s) / Pow(BASE, k)
  {
    ValAt(s, k);
    ValBound(s[..k]);
    DivModOf(Val(s), Pow(BASE, k), Val(s[k..]), Val(s[..k]));
  }

  lemma ValAt(s: seq<Limb>, k: nat)
    requires k <= |s|
    ensures Val(s) == Val(s[..k]) + Pow(BASE, k) * Val(s[k..])
  {
    assert s == s[..k] + s[k..];
    ValAppend(s[..k], s[k..]);
  }

  lemma ValSingle(x: Limb)
    ensures Val([x]) == x
  {
    assert [x][1..] == [];
  }

  /** Appending a word adds it at the weight of its position. */
  lemma ValSnoc(s: seq<Limb>, x: Limb)
    ensures Val(s + [x]) == Val(s) + Pow(BASE, |s|) * x
  {
    ValAppend(s, [x]);
    ValSingle(x);
  }

  /** A carry out of the top word, kept as one more word. */
  lemma ValWithCarry(s: seq<Limb>, c: Limb, total: int)
    requires Val(s) + c * Pow(BASE, |s|) == total
    ensures Val(s + [c]) == total
  {
    ValSnoc(s, c);
  }

  /** Zero words on top do not change the value. */
  lemma ValPadded(s: seq<Limb>, n: nat)
    ensures Val(s + Zeros(n)) == Val(s)
  {
    ValAppend(s, Zeros(n));
  }

  /** Only the lowest word decides the parity of the value. */
  lemma ValParity(s: seq<Limb>)
    requires |s| > 0
    ensures Val(s) % 2 == s[0] % 2
  {
    assert BASE * Val(s[1..]) == (BASE / 2 * Val(s[1..])) * 2;
    ModAddMultiple(s[0], BASE / 2 * Val(s[1..]), 2);
  }

  /** Two word sequences of one length with the same value are the same sequence. */
  lemma {:induction false} ValInjective(s: seq<Limb>, t: seq<Limb>)
    requires |s| == |t| && Val(s) == Val(t)
    ensures s == t
    decreases |s|
  {
    if |s| > 0 {
      DivModUnique(Val(s), BASE, Val(s[1..]), s[0]);
      DivModUnique(Val(t), BASE, Val(t[1..]), t[0]);
      ValInjective(s[1..], t[1..]);
      assert s == [s[0]] + s[1..];
      assert t == [t[0]] + t[1..];
    }
  }

  // ---------------------------------------------------------------------
  // Ripple-carry addition and ripple-borrow subtraction
  // ---------------------------------------------------------------------

  /** Adds two words and an incoming carry: the sum word and the outgoing carry. */
  function AddWord(x: Limb, y: Limb, c: nat): (r: (Limb, nat))
    requires c <= 1
    ensures r.1 <= 1 && r.0 + r.1 * BASE == x + y + c
  {
    var s := x + y + c;
    if s < BASE then (s, 0) else (s - BASE, 1)
  }

  /** Ripple-carry addition of two equally long word sequences with carry-in `c`;
      returns the sum words and the carry out of the top word. */
  function AddCarry(a: seq<Limb>, b: seq<Limb>, c: nat): (r: (seq<Limb>, nat))
    requires |a| == |b| && c <= 1
    ensures |r.0| == |a| && r.1 <= 1
    ensures Val(r.0) + r.1 * Pow(BASE, |a|) == Val(a) + Val(b) + c
    decreases |a|
  {
    if |a| == 0 then ([], c)
    else
      var (d, c1) := AddWord(a[0], b[0], c);
      var (rest, cout) := AddCarry(a[1..], b[1..], c1);
      var sum := [d] + rest;
      assert sum[1..] == rest;
      CarryStep(d, c1, Val(rest), cout, Pow(BASE, |a| - 1), Pow(BASE, |a|),
                a[0], Val(a[1..]), b[0], Val(b[1..]), c);
      (sum, cout)
  }

  /** The arithmetic of one step of AddCarry, on plain integers: the low word
      and the sum of the higher words, each with its carry. */
  lemma CarryStep(d: int, c1: int, rest: int, cout: int, p1: int, p: int,
                  a0: int, va: int, b0: int, vb: int, c: int)
    requires p == BASE * p1
    requires d + c1 * BASE == a0 + b0 + c
    requires rest + cout * p1 == va + vb + c1
    ensures (d + BASE * rest) + cout * p == (a0 + BASE * va) + (b0 + BASE * vb) + c
  {
  }

  /** Subtracts a word and an incoming borrow: the difference word and the outgoing borrow. */
  function SubWord(x: Limb, y: Limb, c: nat): (r: (Limb, nat))
    requires c <= 1
    ensures r.1 <= 1 && r.0 - r.1 * BASE == x - y - c
  {
    var s := x - y - c;
    if s >= 0 then (s, 0) else (s + BASE, 1)
  }

  /** Ripple-borrow subtraction `a - b - c`; returns the difference words and the
      borrow out of the top word. */
  function SubBorrow(a: seq<Limb>, b: seq<Limb>, c: nat): (r: (seq<Limb>, nat))
    requires |a| == |b| && c <= 1
    ensures |r.0| == |a| && r.1 <= 1
    ensures Val(r.0) - r.1 * Pow(BASE, |a|) == Val(a) - Val(b) - c
    decreases |a|
  {
    if |a| == 0 then ([], c)
    else
      var (d, c1) := SubWord(a[0], b[0], c);
      var (rest, cout) := SubBorrow(a[1..], b[1..], c1);
      var diff := [d] + rest;
      assert diff[1..] == rest;
      BorrowStep(d, c1, Val(rest), cout, Pow(BASE, |a| - 1), Pow(BASE, |a|),
                 a[0], Val(a[1..]), b[0], Val(b[1..]), c);
      (diff, cout)
  }

  /** The arithmetic of one step of SubBorrow, on plain integers. */
  lemma BorrowStep(d: int, c1: int, rest: int, cout: int, p1: int, p: int,
                   a0: int, va: int, b0: int, vb: int, c: int)
    requires p == BASE * p1
    requires d - c1 * BASE == a0 - b0 - c
    requires rest - cout * p1 == va - vb - c1
    ensures (d + BASE * rest) - cout * p == (a0 + BASE * va) - (b0 + BASE * vb) - c
  {
  }

  /** The borrow out of a subtraction is set exactly when the subtrahend
      (with the borrow-in) exceeds the minuend, and the difference words then
      hold the wrapped-around difference. */
  lemma SubBorrowMeaning(a: seq<Limb>, b: seq<Limb>, c: nat)
    requires |a| == |b| && c <= 1
    ensures SubBorrow(a, b, c).1 == (if Val(a) < Val(b) + c then 1 else 0)
    ensures Val(SubBorrow(a, b, c).0) == (Val(a) - Val(b) - c) % Pow(BASE, |a|)
  {
    var (d, bo) := SubBorrow(a, b, c);
    ValBound(d);
    ValBound(a);
    ValBound(b);
    BorrowUnique(Val(a) - Val(b) - c, Pow(BASE, |a|), bo, Val(d));
  }

  /** The difference of two equally long word sequences, wrapped around
      modulo `2^(64*|a|)`: the borrow out of the top word is dropped. */
  function WrappingDifference(a: seq<Limb>, b: seq<Limb>): (d: seq<Limb>)
    requires |a| == |b|
    ensures |d| == |a|
    ensures Val(d) == (Val(a) - Val(b)) % Pow(BASE, |a|)
  {
    SubBorrowMeaning(a, b, 0);
    SubBorrow(a, b, 0).0
  }

  /** A difference wrapped into `[0, p)` with a borrow of 0 or 1: the borrow
      is set exactly for a negative difference, and the word value is the
      residue. */
  lemma BorrowUnique(x: int, p: int, bo: int, v: int)
    requires p > 0 && 0 <= v < p && 0 <= bo <= 1 && v - bo * p == x && -p <= x < p
    ensures bo == (if x < 0 then 1 else 0) && v == x % p
  {
    DivModUnique(x, p, -bo, v);
  }

  /** The carry out of an addition is set exactly when the sum does not fit,
      and the sum words hold the sum reduced modulo `2^(64*|a|)`. */
  lemma AddCarryMeaning(a: seq<Limb>, b: seq<Limb>, c: nat)
    requires |a| == |b| && c <= 1
    ensures AddCarry(a, b, c).1 == (if Val(a) + Val(b) + c >= Pow(BASE, |a|) then 1 else 0)
    ensures Val(AddCarry(a, b, c).0) == (Val(a) + Val(b) + c) % Pow(BASE, |a|)
  {
    var (s, co) := AddCarry(a, b, c);
    ValBound(s);
    CarryUnique(Val(a) + Val(b) + c, Pow(BASE, |a|), co, Val(s));
  }

  /** The sum of two equally long word sequences, wrapped around modulo
      `2^(64*|a|)`: the carry out of the top word is dropped. */
  function WrappingSum(a: seq<Limb>, b: seq<Limb>): (s: seq<Limb>)
    requires |a| == |b|
    ensures |s| == |a|
    ensures Val(s) == (Val(a) + Val(b)) % Pow(BASE, |a|)
  {
    AddCarryMeaning(a, b, 0);
    AddCarry(a, b, 0).0
  }

  /** The exact sum of two equally long word sequences, one word longer:
      the carry out of the top word becomes the new top word. */
  function FullSum(a: seq<Limb>, b: seq<Limb>): (s: seq<Limb>)
    requires |a| == |b|
    ensures |s| == |a| + 1
    ensures Val(s) == Val(a) + Val(b)
  {
    var (w, c) := AddCarry(a, b, 0);
    ValWithCarry(w, c, Val(a) + Val(b));
    w + [c]
  }

  /** A sum split into a word value in `[0, p)` and a carry of 0 or 1: the
      carry is set exactly when the sum reaches `p`, and the word value is
      the residue. */
  lemma CarryUnique(x: int, p: int, co: int, v: int)
    requires p > 0 && 0 <= v < p && 0 <= co <= 1 && v + co * p == x
    ensures co == (if x >= p then 1 else 0) && v == x % p
  {
    DivModUnique(x, p, co, v);
  }

  // ---------------------------------------------------------------------
  // Multiplication
  // ---------------------------------------------------------------------

  /** One 64x64 -> 128-bit partial product plus an incoming carry word:
      the low word and the high word. */
  function MulWord(x: Limb, k: Limb, c: Limb): (r: (Limb, Limb))
    ensures r.0 + r.1 * BASE == x * k + c
  {
    var p := x * k + c;
    WordProduct(x, k, c);
    DivBelow(p, BASE, BASE);
    (p % BASE, p / BASE)
  }

  /** A word times a word plus a word fits in two words. */
  lemma WordProduct(x: int, k: int, c: int)
    requires 0 <= x < BASE && 0 <= k < BASE && 0 <= c < BASE
    ensures 0 <= x * k + c < BASE * BASE
  {
    MulLeMono(0, x, k);
    MulLeMono(x, BASE - 1, k);
    MulLeMono(k, BASE - 1, BASE - 1);
  }

  /** Multiplies a word sequence by one word, adding an incoming carry word;
      returns the product words and the word carried out of the top. */
  function MulLimb(a: seq<Limb>, k: Limb, c: Limb): (r: (seq<Limb>, Limb))
    ensures |r.0| == |a|
    ensures Val(r.0) + r.1 * Pow(BASE, |a|) == Val(a) * k + c
    decreases |a|
  {
    if |a| == 0 then ([], c)
    else
      var (d, c1) := MulWord(a[0], k, c);
      var (rest, cout) := MulLimb(a[1..], k, c1);
      var prod := [d] + rest;
      assert prod[1..] == rest;
      RippleMulStep(a[0], Val(a[1..]), k, c, d, c1, Val(rest), cout, Pow(BASE, |a| - 1));
      (prod, cout)
  }

  /** The arithmetic of one step of MulLimb, on plain integers. */
  lemma RippleMulStep(a0: int, v: int, k: int, c: int, d: int, c1: int, rest: int, cout: int, p: int)
    requires d + c1 * BASE == a0 * k + c
    requires rest + cout * p == v * k + c1
    ensures (d + BASE * rest) + cout * (BASE * p) == (a0 + BASE * v) * k + c
  {
    calc {
      (d + BASE * rest) + cout * (BASE * p);
      d + BASE * (rest + cout * p);
      d + BASE * (v * k + c1);
      d + c1 * BASE + BASE * (v * k);
      a0 * k + c + BASE * (v * k);
      (a0 + BASE * v) * k + c;
    }
  }

  /** Schoolbook multiplication: the full `|a| + |b|`-word product, one row
      (all of `a` times one word of `b`) at a time. */
  function MulWide(a: seq<Limb>, b: seq<Limb>): (r: seq<Limb>)
    ensures |r| == |a| + |b|
    ensures Val(r) == Val(a) * Val(b)
    decreases |b|
  {
    if |b| == 0 then Zeros(|a|)
    else
      var (row, top) := MulLimb(a, b[0], 0);
      var partial := row + [top] + Zeros(|b| - 1);
      var high := MulWide(a, b[1..]);
      var shifted := [0] + high;
      var (sum, carry) := AddCarry(partial, shifted, 0);
      ValRow(row, top, |b| - 1);
      ValShifted(high);
      ValCons(b);
      var product := Val(a) * Val(b);
      RowSum(Val(partial), Val(row), top, Pow(BASE, |a|), Val(a), b[0], Val(b[1..]), Val(b), Val(shifted));
      assert Val(sum) + carry * Pow(BASE, |partial|) == product;
      ProductFits(a, b, |partial|);
      NoCarry(Val(sum), carry, Pow(BASE, |partial|), product);
      sum
  }

  /** The product of an `m`-word and an `n`-word number fits in `m + n` words. */
  lemma ProductFits(a: seq<Limb>, b: seq<Limb>, n: nat)
    requires n == |a| + |b|
    ensures Val(a) * Val(b) < Pow(BASE, n)
  {
    ValBound(a);
    ValBound(b);
    ProductBound(Val(a), Val(b), Pow(BASE, |a|), Pow(BASE, |b|));
    PowAdd(BASE, |a|, |b|);
  }

  /** A sum that fits leaves no carry. */
  lemma NoCarry(v: int, carry: int, p: int, total: int)
    requires p > 0 && v >= 0 && carry >= 0 && v + carry * p == total && total < p
    ensures carry == 0 && v == total
  {
    if carry > 0 {
      MulAtLeast(carry, p);
    }
  }

  /** A row of the schoolbook product: its words, its top word, then zero padding. */
  lemma ValRow(row: seq<Limb>, top: Limb, n: nat)
    ensures Val(row + [top] + Zeros(n)) == Val(row) + Pow(BASE, |row|) * top
  {
    ValPadded(row + [top], n);
    ValSnoc(row, top);
  }

  /** A zero word below `s` multiplies its value by the radix. */
  lemma ValShifted(s: seq<Limb>)
    ensures Val([0] + s) == BASE * Val(s)
  {
    assert ([0] + s)[1..] == s;
  }

  lemma ValCons(s: seq<Limb>)
    requires |s| > 0
    ensures Val(s) == s[0] + BASE * Val(s[1..])
  {
  }

  lemma RowSum(vp: int, vr: int, top: int, p: int, va: int, b0: int, vb1: int, vb: int, vs: int)
    requires vp == vr + p * top && vr + top * p == va * b0
    requires vs == BASE * (va * vb1) && vb == b0 + BASE * vb1
    ensures vp + vs == va * vb
  {
  }

  lemma ProductBound(x: nat, y: nat, px: int, py: int)
    requires x < px && y < py
    ensures x * y < px * py
  {
    MulLeMono(x, px - 1, y);
    MulLeMono(y, py, px - 1);
    assert (px - 1) * py < px * py;
  }

  // ---------------------------------------------------------------------
  // Comparison
  // ---------------------------------------------------------------------

  /** Three-way comparison of two equally long word sequences, most
      significant word first: -1, 0 or 1. */
  function Cmp(a: seq<Limb>, b: seq<Limb>): (c: int)
    requires |a| == |b|
    ensures -1 <= c <= 1
    ensures c < 0 <==> Val(a) < Val(b)
    ensures c == 0 <==> Val(a) == Val(b)
    decreases |a|
  {
    if |a| == 0 then 0
    else
      var high := Cmp(a[1..], b[1..]);
      CmpStep(a, b);
      if high != 0 then high
      else if a[0] < b[0] then -1
      else if a[0] > b[0] then 1
      else 0
  }

  /** A difference in the higher words outweighs any difference in the lowest one. */
  lemma CmpStep(a: seq<Limb>, b: seq<Limb>)
    requires |a| == |b| > 0
    ensures Val(a[1..]) < Val(b[1..]) ==> Val(a) < Val(b)
    ensures Val(a[1..]) > Val(b[1..]) ==> Val(a) > Val(b)
  {
    if Val(a[1..]) < Val(b[1..]) {
      MulLeMono(Val(a[1..]) + 1, Val(b[1..]), BASE);
    }
    if Val(a[1..]) > Val(b[1..]) {
      MulLeMono(Val(b[1..]) + 1, Val(a[1..]), BASE);
    }
  }

  // ---------------------------------------------------------------------
  // Bitwise complement
  // ---------------------------------------------------------------------

  /** Complements every bit of every word. */
  function Not(a: seq<Limb>): (r: seq<Limb>)
    ensures |r| == |a|
    ensures Val(r) == Pow(BASE, |a|) - 1 - Val(a)
    decreases |a|
  {
    if |a| == 0 then []
    else
      var rest := Not(a[1..]);
      var r := [BASE - 1 - a[0]] + rest;
      assert r[1..] == rest;
      assert Val(r) == BASE - 1 - a[0] + BASE * (Pow(BASE, |a| - 1) - 1 - Val(a[1..]));
      r
  }
}
