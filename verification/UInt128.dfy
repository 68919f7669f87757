/** Two-limb unsigned 128-bit arithmetic (base/int128.h). */
module UInt128s {
  import opened Words

  /** A uint128 value: the integer hi * 2^64 + lo. */
  datatype U128 = U128(hi: Word, lo: Word) {
    function Val(): nat {
      hi * TWO_TO_THE_64 + lo
    }
  }

  lemma ValInjective(a: U128, b: U128)
    ensures a.Val() == b.Val() <==> a == b
    ensures a.Val() < TWO_TO_THE_128
  {
  }

  // ---- value operators ----

  predicate Lt(a: U128, b: U128): (r: bool)
    ensures r <==> a.Val() < b.Val()
  {
    if a.hi == b.hi then a.lo < b.lo else a.hi < b.hi
  }

  predicate Ge(a: U128, b: U128): (r: bool)
    ensures r <==> a.Val() >= b.Val()
  {
    if a.hi == b.hi then a.lo >= b.lo else a.hi >= b.hi
  }

  function Negate(v: U128): (r: U128)
    ensures (r.Val() + v.Val()) % TWO_TO_THE_128 == 0
  {
    var hiFlip := Not(v.hi);
    var loFlip := Not(v.lo);
    var loAdd := Wrap(loFlip + 1);
    if loAdd < loFlip then U128(Wrap(hiFlip + 1), loAdd) else U128(hiFlip, loAdd)
  }

  /** uint128(int): sign-extends a negative argument. */
  function FromInt(bottom: int): (r: U128)
    requires -0x8000_0000 <= bottom < 0x8000_0000
    ensures r.Val() == bottom % TWO_TO_THE_128
  {
    if bottom < 0 then U128(Wrap(-1), Wrap(bottom)) else U128(0, bottom)
  }

  function ShiftLeft(v: U128, amount: nat): (r: U128)
    ensures r.Val() == v.Val() * Pow2(amount) % TWO_TO_THE_128
  {
    ShiftLeftCorrect(v, amount);
    LeftShifted(v, amount)
  }

  function ShiftRight(v: U128, amount: nat): (r: U128)
    ensures r.Val() == v.Val() / Pow2(amount)
  {
    ShiftRightCorrect(v, amount);
    RightShifted(v, amount)
  }

  /** The limbs the code computes for v << amount. */
  function LeftShifted(v: U128, amount: nat): U128 {
    if amount < 64 then
      if amount == 0 then v
      else U128(OrWord(Shl(v.hi, amount), Shr(v.lo, 64 - amount)), Shl(v.lo, amount))
    else if amount < 128 then U128(Shl(v.lo, amount - 64), 0)
    else U128(0, 0)
  }

  function RightShifted(v: U128, amount: nat): U128 {
    if amount < 64 then
      if amount == 0 then v
      else U128(Shr(v.hi, amount), OrWord(Shr(v.lo, amount), Shl(v.hi, 64 - amount)))
    else if amount < 128 then U128(0, Shr(v.hi, amount - 64))
    else U128(0, 0)
  }

  function OrWord(x: Word, y: Word): Word {
    Pow2Is64();
    OrBound(x, y, 64);
    Or(x, y)
  }

  lemma {:induction false} OrBound(x: nat, y: nat, k: nat)
    requires x < Pow2(k) && y < Pow2(k)
    ensures Or(x, y) < Pow2(k)
    decreases k
  {
    if k > 0 {
      OrBound(x / 2, y / 2, k - 1);
    }
  }

  // ---- shifts as multiplication and division ----

  lemma ShiftLeftCorrect(v: U128, n: nat)
    ensures LeftShifted(v, n).Val() == v.Val() * Pow2(n) % TWO_TO_THE_128
  {
    if n == 0 {
      ValInjective(v, v);
      DivModUnique(v.Val(), TWO_TO_THE_128, 0, v.Val());
      assert v.Val() * 1 == v.Val();
    } else if n < 64 {
      ShiftLeftSmall(v, n);
    } else if n < 128 {
      ShiftLeftLarge(v, n);
    } else {
      ShiftedOut(v.Val(), n);
    }
  }

  lemma ShiftedOut(x: nat, n: nat)
    requires n >= 128
    ensures x * Pow2(n) % TWO_TO_THE_128 == 0
  {
    var p := Pow2(n - 128);
    Pow2Add(n - 128, 128);
    Pow2Is128();
    MulAssoc(x, p, TWO_TO_THE_128);
    DivModUnique(x * Pow2(n), TWO_TO_THE_128, x * p, 0);
  }

  lemma MulAssoc(a: int, b: int, c: int)
    ensures a * (b * c) == (a * b) * c && (a * b) * c == (a * c) * b
  {
  }

  lemma MulValue(v: U128, p: nat)
    ensures v.Val() * p == (v.hi * p) * TWO_TO_THE_64 + v.lo * p
  {
    MulDistribute(v.hi, TWO_TO_THE_64, v.lo, p);
    MulAssoc(v.hi, p, TWO_TO_THE_64);
  }

  lemma ShiftLeftSmall(v: U128, n: nat)
    requires 0 < n < 64
    ensures LeftShifted(v, n).Val() == v.Val() * Pow2(n) % TWO_TO_THE_128
  {
    var r := LeftShifted(v, n);
    ShlSplit(v.hi, n, 64 - n);
    ShlSplit(v.lo, n, 64 - n);
    OrDisjoint(Shl(v.hi, n), Shr(v.lo, 64 - n), n);
    MulValue(v, Pow2(n));
    ValInjective(r, r);
    DivModUnique(v.Val() * Pow2(n), TWO_TO_THE_128, Shr(v.hi, 64 - n), r.Val());
  }

  lemma ShiftLeftLarge(v: U128, n: nat)
    requires 64 <= n < 128
    ensures LeftShifted(v, n).Val() == v.Val() * Pow2(n) % TWO_TO_THE_128
  {
    var p := Pow2(n - 64);
    Pow2Add(n - 64, 64);
    Pow2Is64();
    var r := LeftShifted(v, n);
    DivMod(v.lo * p, TWO_TO_THE_64);
    var k := v.lo * p / TWO_TO_THE_64;
    MulAssoc(v.Val(), p, TWO_TO_THE_64);
    MulValue(v, p);
    ValInjective(r, r);
    DivModUnique(v.Val() * Pow2(n), TWO_TO_THE_128, v.hi * p + k, r.Val());
  }

  lemma ShiftRightCorrect(v: U128, n: nat)
    ensures RightShifted(v, n).Val() == v.Val() / Pow2(n)
  {
    if n == 0 {
      DivModUnique(v.Val(), 1, v.Val(), 0);
    } else if n < 64 {
      ShiftRightSmall(v, n);
    } else if n < 128 {
      ShiftRightLarge(v, n);
    } else {
      Pow2Mono(128, n);
      Pow2Is128();
      ValInjective(v, v);
      DivModUnique(v.Val(), Pow2(n), 0, v.Val());
    }
  }

  lemma ShiftRightSmall(v: U128, n: nat)
    requires 0 < n < 64
    ensures RightShifted(v, n).Val() == v.Val() / Pow2(n)
  {
    hide Or, Shl, Pow2;
    var m := 64 - n;
    ShlSplit(v.hi, m, n);
    ShlSplit(v.lo, m, n);
    OrDisjoint(Shl(v.hi, m), Shr(v.lo, n), m);
    ShlSplit(v.hi, n, m);
    ShiftRightLimbs(v.hi, v.lo, Pow2(n), Pow2(m));
  }

  /** Dividing two limbs by p, where p * q is the limb size. */
  lemma ShiftRightLimbs(hi: nat, lo: nat, p: nat, q: nat)
    requires p > 0 && p * q == TWO_TO_THE_64
    ensures (hi / p) * TWO_TO_THE_64 + ((hi % p) * q + lo / p) == (hi * TWO_TO_THE_64 + lo) / p
  {
    DivMod(hi, p);
    DivMod(lo, p);
    ShiftRightSum(hi / p, hi % p, lo / p, lo % p, p, q);
    DivModUnique(hi * TWO_TO_THE_64 + lo, p, (hi / p) * TWO_TO_THE_64 + ((hi % p) * q + lo / p), lo % p);
  }

  lemma ShiftRightSum(hq: nat, hr: nat, lq: nat, lr: nat, p: nat, q: nat)
    requires p * q == TWO_TO_THE_64
    ensures (hq * p + hr) * TWO_TO_THE_64 + (lq * p + lr) == (hq * TWO_TO_THE_64 + (hr * q + lq)) * p + lr
  {
    MulAssoc(hr, q, p);
    MulAssoc(hq, p, TWO_TO_THE_64);
    assert (hq * TWO_TO_THE_64 + (hr * q + lq)) * p == hq * TWO_TO_THE_64 * p + hr * q * p + lq * p;
  }

  lemma ShiftRightLarge(v: U128, n: nat)
    requires 64 <= n < 128
    ensures RightShifted(v, n).Val() == v.Val() / Pow2(n)
  {
    var p := Pow2(n - 64);
    Pow2Add(n - 64, 64);
    Pow2Is64();
    DivMod(v.hi, p);
    var q, r := v.hi / p, v.hi % p;
    MulAssoc(q, p, TWO_TO_THE_64);
    MulMono(r + 1, p, TWO_TO_THE_64);
    DivModUnique(v.Val(), Pow2(n), q, r * TWO_TO_THE_64 + v.lo);
  }

  // ---- schoolbook multiplication ----

  lemma ProductOfPairs(x: int, y: int, z: int, w: int, base: int)
    ensures (x * base + y) * (z * base + w) == x * z * (base * base) + (x * w + y * z) * base + y * w
  {
    MulDistribute(x, base, y, z * base + w);
    assert x * ((z * base + w) * base) == x * z * (base * base) + x * w * base;
    assert y * (z * base + w) == y * z * base + y * w;
  }

  /** The high limb drops the carries of c96 and c64; what it drops is a multiple of 2^64. */
  lemma HighLimb(c3: int, c2: int) returns (k: int)
    ensures Wrap(Wrap(Wrap(c3) * TWO_TO_THE_32) + Wrap(c2)) == c3 * TWO_TO_THE_32 + c2 + k * TWO_TO_THE_64
  {
    var h := Wrap(Wrap(c3) * TWO_TO_THE_32);
    k := -(c3 / TWO_TO_THE_64 * TWO_TO_THE_32) - Wrap(c3) * TWO_TO_THE_32 / TWO_TO_THE_64
         - c2 / TWO_TO_THE_64 - (h + Wrap(c2)) / TWO_TO_THE_64;
  }

  /** The terms the code keeps are congruent to the full product modulo 2^128. */
  lemma KeptTerms(a3: nat, a2: nat, a1: nat, a0: nat, b3: nat, b2: nat, b1: nat, b0: nat, hi: int)
    requires hi ==
      Wrap(Wrap(Wrap(a3 * b0 + a2 * b1 + a1 * b2 + a0 * b3) * TWO_TO_THE_32) + Wrap(a2 * b0 + a1 * b1 + a0 * b2))
    ensures var a := (a3 * TWO_TO_THE_32 + a2) * TWO_TO_THE_64 + (a1 * TWO_TO_THE_32 + a0);
      var b := (b3 * TWO_TO_THE_32 + b2) * TWO_TO_THE_64 + (b1 * TWO_TO_THE_32 + b0);
      (hi * TWO_TO_THE_64 + a1 * b0 * TWO_TO_THE_32 + a0 * b1 * TWO_TO_THE_32 + a0 * b0) % TWO_TO_THE_128 ==
      (a * b) % TWO_TO_THE_128
  {
    var ah, al := a3 * TWO_TO_THE_32 + a2, a1 * TWO_TO_THE_32 + a0;
    var bh, bl := b3 * TWO_TO_THE_32 + b2, b1 * TWO_TO_THE_32 + b0;
    ProductOfPairs(ah, al, bh, bl, TWO_TO_THE_64);
    ProductOfPairs(a3, a2, b1, b0, TWO_TO_THE_32);
    ProductOfPairs(a1, a0, b3, b2, TWO_TO_THE_32);
    ProductOfPairs(a1, a0, b1, b0, TWO_TO_THE_32);
    var k := HighLimb(a3 * b0 + a2 * b1 + a1 * b2 + a0 * b3, a2 * b0 + a1 * b1 + a0 * b2);
    var p := (ah * TWO_TO_THE_64 + al) * (bh * TWO_TO_THE_64 + bl);
    CollectTerms(p, hi, k, ah * bh, ah * bl, al * bh, al * bl, a3 * b1, a3 * b0, a2 * b1, a2 * b0,
                 a1 * b3, a1 * b2, a0 * b3, a0 * b2, a1 * b1, a1 * b0, a0 * b1, a0 * b0);
  }

  /** The same with every product of limbs given a name: t31 stands for a3 * b1, and so on. */
  lemma CollectTerms(p: int, hi: int, k: int, hh: int, hl: int, lh: int, ll: int, t31: int, t30: int, t21: int,
                     t20: int, t13: int, t12: int, t03: int, t02: int, t11: int, t10: int, t01: int, t00: int)
    requires p == hh * (TWO_TO_THE_64 * TWO_TO_THE_64) + (hl + lh) * TWO_TO_THE_64 + ll
    requires hl == t31 * (TWO_TO_THE_32 * TWO_TO_THE_32) + (t30 + t21) * TWO_TO_THE_32 + t20
    requires lh == t13 * (TWO_TO_THE_32 * TWO_TO_THE_32) + (t12 + t03) * TWO_TO_THE_32 + t02
    requires ll == t11 * (TWO_TO_THE_32 * TWO_TO_THE_32) + (t10 + t01) * TWO_TO_THE_32 + t00
    requires hi == (t30 + t21 + t12 + t03) * TWO_TO_THE_32 + (t20 + t11 + t02) + k * TWO_TO_THE_64
    ensures (hi * TWO_TO_THE_64 + t10 * TWO_TO_THE_32 + t01 * TWO_TO_THE_32 + t00) % TWO_TO_THE_128 ==
      p % TWO_TO_THE_128
  {
    SameRemainder(hi * TWO_TO_THE_64 + t10 * TWO_TO_THE_32 + t01 * TWO_TO_THE_32 + t00, p, k - hh - t31 - t13);
  }

  lemma SameRemainder(x: int, y: int, k: int)
    requires x == y + k * TWO_TO_THE_128
    ensures x % TWO_TO_THE_128 == y % TWO_TO_THE_128
  {
  }

  /** Adding one term at a time, each time modulo 2^128. */
  lemma SumOfTerms(v0: nat, t1: nat, t2: nat, t3: nat, v1: nat, v2: nat, v3: nat)
    requires v1 == (v0 + t1) % TWO_TO_THE_128
    requires v2 == (v1 + t2) % TWO_TO_THE_128
    requires v3 == (v2 + t3) % TWO_TO_THE_128
    ensures v3 == (v0 + t1 + t2 + t3) % TWO_TO_THE_128
  {
  }

  lemma ShiftedTerm(t: Word)
    ensures ShiftLeft(U128(0, t), 32).Val() == t * TWO_TO_THE_32
  {
    Pow2Is32();
  }

  lemma HalfWords(x: Word)
    ensures And(x, TWO_TO_THE_32 - 1) == x % TWO_TO_THE_32 && Shr(x, 32) == x / TWO_TO_THE_32
    ensures x == Shr(x, 32) * TWO_TO_THE_32 + And(x, TWO_TO_THE_32 - 1)
    ensures Shr(x, 32) < TWO_TO_THE_32
  {
    Pow2Is32();
    AndMask(x, 32);
  }

  lemma HalfProduct(a: nat, b: nat)
    requires a < TWO_TO_THE_32 && b < TWO_TO_THE_32
    ensures a * b < TWO_TO_THE_64
  {
    MulMono(a, TWO_TO_THE_32 - 1, b);
  }

  lemma DivZero(x: nat, p: nat)
    requires p > 0
    ensures x / p == 0 <==> x < p
  {
    DivMod(x, p);
    if x < p {
      DivModUnique(x, p, 0, x);
    }
  }

  /** The limbs of a sum, with the carry detected by wrap-around of the low limb. */
  lemma SumLimbs(a: U128, b: U128, r: U128)
    requires r.lo == Wrap(a.lo + b.lo)
    requires r.hi == if r.lo < a.lo then Wrap(Wrap(a.hi + b.hi) + 1) else Wrap(a.hi + b.hi)
    ensures r.Val() == (a.Val() + b.Val()) % TWO_TO_THE_128
  {
    var carry := if a.lo + b.lo < TWO_TO_THE_64 then 0 else 1;
    assert r.lo == a.lo + b.lo - carry * TWO_TO_THE_64;
    var top := a.hi + b.hi + carry;
    var over := if top < TWO_TO_THE_64 then 0 else 1;
    assert r.hi == top - over * TWO_TO_THE_64;
    ValInjective(r, r);
    DivModUnique(a.Val() + b.Val(), TWO_TO_THE_128, over, r.Val());
  }

  lemma DifferenceLimbs(a: U128, b: U128, r: U128)
    requires r.lo == Wrap(a.lo - b.lo)
    requires r.hi == if b.lo > a.lo then Wrap(Wrap(a.hi - b.hi) - 1) else Wrap(a.hi - b.hi)
    ensures r.Val() == (a.Val() - b.Val()) % TWO_TO_THE_128
  {
    var borrow := if b.lo > a.lo then 1 else 0;
    assert r.lo == a.lo - b.lo + borrow * TWO_TO_THE_64;
    var top := a.hi - b.hi - borrow;
    var under := if top < 0 then 1 else 0;
    assert r.hi == top + under * TWO_TO_THE_64;
    ValInjective(r, r);
    DivModUnique(a.Val() - b.Val(), TWO_TO_THE_128, -under, r.Val());
  }

  /** The halves of a word: x >> 32 and x & 0xffffffff. */
  function High32(x: Word): (r: nat)
    ensures r < TWO_TO_THE_32
  {
    HalfWords(x);
    Shr(x, 32)
  }

  function Low32(x: Word): (r: nat)
    ensures r < TWO_TO_THE_32 && x == High32(x) * TWO_TO_THE_32 + r
  {
    HalfWords(x);
    And(x, TWO_TO_THE_32 - 1)
  }

  function HalfMul(a: nat, b: nat): Word
    requires a < TWO_TO_THE_32 && b < TWO_TO_THE_32
  {
    HalfProduct(a, b);
    a * b
  }

  /** The high limb operator*= starts from: each product fits a word, the sums wrap. */
  function HighProduct(a: U128, b: U128): Word {
    var a96, a64, a32, a00 := High32(a.hi), Low32(a.hi), High32(a.lo), Low32(a.lo);
    var b96, b64, b32, b00 := High32(b.hi), Low32(b.hi), High32(b.lo), Low32(b.lo);
    var c96 := Wrap(HalfMul(a96, b00) + HalfMul(a64, b32) + HalfMul(a32, b64) + HalfMul(a00, b96));
    var c64 := Wrap(HalfMul(a64, b00) + HalfMul(a32, b32) + HalfMul(a00, b64));
    Wrap(Shl(c96, 32) + c64)
  }

  /** The three terms that are added after it. */
  function LowProducts(a: U128, b: U128): (Word, Word, Word) {
    (HalfMul(High32(a.lo), Low32(b.lo)), HalfMul(Low32(a.lo), High32(b.lo)), HalfMul(Low32(a.lo), Low32(b.lo)))
  }

  ghost function ProductModulo(a: U128, b: U128): nat {
    (a.Val() * b.Val()) % TWO_TO_THE_128
  }

  lemma ProductLimbs(a: U128, b: U128)
    ensures var (p, q, r) := LowProducts(a, b);
      (HighProduct(a, b) * TWO_TO_THE_64 + p * TWO_TO_THE_32 + q * TWO_TO_THE_32 + r) % TWO_TO_THE_128 ==
        ProductModulo(a, b)
  {
    HighProductIs(a, b);
    LowProductsAre(a, b);
    FourHalves(a);
    FourHalves(b);
    ProductFrom(High32(a.hi), Low32(a.hi), High32(a.lo), Low32(a.lo), High32(b.hi), Low32(b.hi), High32(b.lo),
                Low32(b.lo), HighProduct(a, b), a.Val(), b.Val());
  }

  /** KeptTerms with names for the two factors. */
  lemma ProductFrom(a3: nat, a2: nat, a1: nat, a0: nat, b3: nat, b2: nat, b1: nat, b0: nat, hi: int, x: int, y: int)
    requires hi ==
      Wrap(Wrap(Wrap(a3 * b0 + a2 * b1 + a1 * b2 + a0 * b3) * TWO_TO_THE_32) + Wrap(a2 * b0 + a1 * b1 + a0 * b2))
    requires x == (a3 * TWO_TO_THE_32 + a2) * TWO_TO_THE_64 + (a1 * TWO_TO_THE_32 + a0)
    requires y == (b3 * TWO_TO_THE_32 + b2) * TWO_TO_THE_64 + (b1 * TWO_TO_THE_32 + b0)
    ensures (hi * TWO_TO_THE_64 + (a1 * b0) * TWO_TO_THE_32 + (a0 * b1) * TWO_TO_THE_32 + a0 * b0) % TWO_TO_THE_128 ==
      (x * y) % TWO_TO_THE_128
  {
    KeptTerms(a3, a2, a1, a0, b3, b2, b1, b0, hi);
  }

  lemma FourHalves(a: U128)
    ensures a.Val() == (High32(a.hi) * TWO_TO_THE_32 + Low32(a.hi)) * TWO_TO_THE_64 +
                       (High32(a.lo) * TWO_TO_THE_32 + Low32(a.lo))
  {
  }

  lemma LowProductsAre(a: U128, b: U128)
    ensures LowProducts(a, b) ==
      (High32(a.lo) * Low32(b.lo), Low32(a.lo) * High32(b.lo), Low32(a.lo) * Low32(b.lo))
  {
  }

  lemma HighProductIs(a: U128, b: U128)
    ensures var a3, a2, a1, a0 := High32(a.hi), Low32(a.hi), High32(a.lo), Low32(a.lo);
      var b3, b2, b1, b0 := High32(b.hi), Low32(b.hi), High32(b.lo), Low32(b.lo);
      HighProduct(a, b) ==
      Wrap(Wrap(Wrap(a3 * b0 + a2 * b1 + a1 * b2 + a0 * b3) * TWO_TO_THE_32) + Wrap(a2 * b0 + a1 * b1 + a0 * b2))
  {
    Pow2Is32();
  }

  /** What operator>>= leaves: from 64 to 127 it clears the high limb before reading it. */
  function ShiftedInPlace(v: U128, amount: nat): U128 {
    if 64 <= amount < 128 then U128(0, 0) else RightShifted(v, amount)
  }

  /** operator>>= agrees with operator>> exactly for these amounts and values. */
  lemma InPlaceShiftRight(v: U128, amount: nat)
    ensures ShiftedInPlace(v, amount) == ShiftRight(v, amount) <==>
      amount < 64 || amount >= 128 || v.Val() < Pow2(amount)
    ensures ShiftedInPlace(v, amount) != ShiftRight(v, amount) ==> ShiftedInPlace(v, amount).Val() == 0
  {
    ShiftRightCorrect(v, amount);
    DivZero(v.Val(), Pow2(amount));
    ValInjective(U128(0, 0), ShiftRight(v, amount));
  }

  /** 2^64 >>= 64 is 0, while 2^64 >> 64 is 1. */
  lemma InPlaceShiftRightExample()
    ensures ShiftRight(U128(1, 0), 64) == U128(0, 1) && ShiftedInPlace(U128(1, 0), 64) == U128(0, 0)
  {
    DivModUnique(1, 1, 1, 0);
    ValInjective(ShiftRight(U128(1, 0), 64), U128(0, 1));
    Pow2Is64();
    DivModUnique(TWO_TO_THE_64, TWO_TO_THE_64, 1, 0);
  }

  class UInt128 {
    var lo: Word
    var hi: Word

    function Value(): U128
      reads this
    {
      U128(hi, lo)
    }

    ghost function Val(): nat
      reads this
    {
      Value().Val()
    }

    constructor (v: U128)
      ensures Value() == v
    {
      hi, lo := v.hi, v.lo;
    }

    /** operator+=; b may be this object itself. */
    method AddAssign(b: UInt128)
      modifies this
      ensures Val() == old(Val() + b.Val()) % TWO_TO_THE_128
    {
      ghost var x, y := Value(), b.Value();
      hi := Wrap(hi + b.hi);
      var lolo := Wrap(lo + b.lo);
      if lolo < lo {
        hi := Wrap(hi + 1);
      }
      lo := lolo;
      SumLimbs(x, y, Value());
    }

    method SubAssign(b: UInt128)
      modifies this
      ensures Val() == old(Val() - b.Val()) % TWO_TO_THE_128
    {
      ghost var x, y := Value(), b.Value();
      hi := Wrap(hi - b.hi);
      if b.lo > lo {
        hi := Wrap(hi - 1);
      }
      lo := Wrap(lo - b.lo);
      DifferenceLimbs(x, y, Value());
    }

    method ShiftLeftAssign(amount: nat)
      modifies this
      ensures Val() == old(Val()) * Pow2(amount) % TWO_TO_THE_128
    {
      ShiftLeftCorrect(Value(), amount);
      if amount < 64 {
        if amount != 0 {
          hi := OrWord(Shl(hi, amount), Shr(lo, 64 - amount));
          lo := Shl(lo, amount);
        }
      } else if amount < 128 {
        hi := Shl(lo, amount - 64);
        lo := 0;
      } else {
        hi := 0;
        lo := 0;
      }
    }

    /** operator>>=; see InPlaceShiftRight for when this is a right shift. */
    method ShiftRightAssign(amount: nat)
      modifies this
      ensures Value() == ShiftedInPlace(old(Value()), amount)
    {
      if amount < 64 {
        if amount != 0 {
          lo := OrWord(Shr(lo, amount), Shl(hi, 64 - amount));
          hi := Shr(hi, amount);
        }
      } else if amount < 128 {
        hi := 0;
        lo := Shr(hi, amount - 64);
        DivZero(0, Pow2(amount - 64));
      } else {
        hi := 0;
        lo := 0;
      }
    }

    /** operator*=; b may be this object itself. */
    method MulAssign(b: UInt128)
      modifies this
      ensures Val() == ProductModulo(old(Value()), old(b.Value()))
    {
      hide HighProduct, LowProducts, ProductModulo;
      ghost var x, y := Value(), b.Value();
      ProductLimbs(x, y);
      var low := LowProducts(Value(), b.Value());
      hi := HighProduct(Value(), b.Value());
      lo := 0;
      AddTerms(low.0, low.1, low.2);
    }

    /** The last three terms, added one at a time to capture the carries. */
    method AddTerms(p: Word, q: Word, r: Word)
      modifies this
      ensures Val() == (old(Val()) + p * TWO_TO_THE_32 + q * TWO_TO_THE_32 + r) % TWO_TO_THE_128
    {
      ghost var v0 := Val();
      AddShifted(p);
      ghost var v1 := Val();
      AddShifted(q);
      ghost var v2 := Val();
      var t := new UInt128(U128(0, r));
      AddAssign(t);
      SumOfTerms(v0, p * TWO_TO_THE_32, q * TWO_TO_THE_32, r, v1, v2, Val());
    }

    method AddShifted(p: Word)
      modifies this
      ensures Val() == (old(Val()) + p * TWO_TO_THE_32) % TWO_TO_THE_128
    {
      ShiftedTerm(p);
      var t := new UInt128(ShiftLeft(U128(0, p), 32));
      AddAssign(t);
    }
  }
}
