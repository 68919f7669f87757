/** 64-bit machine words as naturals, with the C++ shift and bit operators on them. */
module Words {
  const TWO_TO_THE_32 := 0x1_0000_0000
  const TWO_TO_THE_64 := 0x1_0000_0000_0000_0000
  const TWO_TO_THE_128 := 0x1_0000_0000_0000_0000_0000_0000_0000_0000

  type Word = x: nat | x < TWO_TO_THE_64

  function Pow2(n: nat): (p: nat)
    ensures p > 0
  {
    if n == 0 then 1 else 2 * Pow2(n - 1)
  }

  /** Bitwise |, & on naturals of any width. */
  function Or(x: nat, y: nat): nat {
    if x == 0 && y == 0 then 0
    else (if x % 2 == 1 || y % 2 == 1 then 1 else 0) + 2 * Or(x / 2, y / 2)
  }

  function And(x: nat, y: nat): nat {
    if x == 0 && y == 0 then 0
    else (if x % 2 == 1 && y % 2 == 1 then 1 else 0) + 2 * And(x / 2, y / 2)
  }

  function Not(x: Word): Word {
    TWO_TO_THE_64 - 1 - x
  }

  function Wrap(x: int): Word {
    x % TWO_TO_THE_64
  }

  /** x << n and x >> n on a 64-bit word; C++ leaves n >= 64 undefined. */
  function Shl(x: Word, n: nat): Word
    requires n < 64
  {
    Wrap(x * Pow2(n))
  }

  function Shr(x: Word, n: nat): (r: Word)
    requires n < 64
  {
    DivLeq(x, Pow2(n));
    x / Pow2(n)
  }

  // ---- arithmetic ----

  lemma DivLeq(x: nat, d: nat)
    requires d > 0
    ensures 0 <= x / d <= x
  {
    DivMod(x, d);
    if x / d > x {
      MulMono(x + 1, x / d, d);
      MulMono(1, d, x + 1);
    }
  }

  lemma DivMod(x: int, d: int)
    requires d > 0
    ensures x == (x / d) * d + x % d && 0 <= x % d < d
  {
  }

  lemma MulMono(a: nat, b: nat, c: nat)
    requires a <= b
    ensures a * c <= b * c && c * a <= c * b
  {
  }

  /** Quotient and remainder are the only way to write x as q * d + r. */
  lemma DivModUnique(x: int, d: int, q: int, r: int)
    requires d > 0 && x == q * d + r && 0 <= r < d
    ensures x / d == q && x % d == r
  {
    DivMod(x, d);
    var k := x / d - q;
    assert k * d == r - x % d by {
      assert (x / d) * d - q * d == k * d;
    }
    NoMultipleBetween(k, d);
  }

  lemma NoMultipleBetween(k: int, d: int)
    requires -d < k * d < d
    ensures k == 0
  {
  }

  lemma {:induction false} Pow2Add(m: nat, n: nat)
    ensures Pow2(m + n) == Pow2(m) * Pow2(n)
  {
    if m > 0 {
      Pow2Add(m - 1, n);
      assert 2 * (Pow2(m - 1) * Pow2(n)) == Pow2(m) * Pow2(n);
    }
  }

  lemma Pow2Square(n: nat, v: nat)
    requires Pow2(n) == v
    ensures Pow2(2 * n) == v * v
  {
    Pow2Add(n, n);
  }

  lemma Pow2Is32()
    ensures Pow2(32) == TWO_TO_THE_32
  {
    Pow2Square(8, 256);
    Pow2Square(16, 256 * 256);
  }

  lemma Pow2Is64()
    ensures Pow2(64) == TWO_TO_THE_64
  {
    Pow2Is32();
    Pow2Square(32, TWO_TO_THE_32);
  }

  lemma Pow2Is128()
    ensures Pow2(128) == TWO_TO_THE_128
  {
    Pow2Is64();
    Pow2Square(64, TWO_TO_THE_64);
  }

  lemma {:induction false} Pow2Mono(m: nat, n: nat)
    requires m <= n
    ensures Pow2(m) <= Pow2(n)
  {
    if m < n {
      Pow2Mono(m, n - 1);
    }
  }

  // ---- bit operators as arithmetic ----

  /** Words without a common bit: | is +. */
  lemma {:induction false} OrDisjoint(x: nat, y: nat, k: nat)
    requires x % Pow2(k) == 0 && y < Pow2(k)
    ensures Or(x, y) == x + y && Or(y, x) == x + y
    decreases k
  {
    if k == 0 {
      OrZero(x);
    } else {
      var p := Pow2(k - 1);
      DivMod(x, 2 * p);
      var q := x / (2 * p);
      assert x == 2 * (q * p);
      DivModUnique(x, 2, q * p, 0);
      DivModUnique(q * p, p, q, 0);
      OrDisjoint(x / 2, y / 2, k - 1);
    }
  }

  lemma {:induction false} OrZero(x: nat)
    ensures Or(x, 0) == x && Or(0, x) == x
  {
    if x > 0 {
      OrZero(x / 2);
    }
  }

  /** Masking with the k low bits is taking the remainder. */
  lemma {:induction false} AndMask(x: nat, k: nat)
    ensures And(x, Pow2(k) - 1) == x % Pow2(k)
    decreases k
  {
    if k == 0 {
      AndZero(x);
      DivModUnique(x, 1, x, 0);
    } else {
      var p := Pow2(k - 1);
      AndMask(x / 2, k - 1);
      HalfRemainder(x, p);
      AndHalves(x, p);
    }
  }

  lemma AndHalves(x: nat, p: nat)
    requires p > 0
    ensures And(x, 2 * p - 1) == x % 2 + 2 * And(x / 2, p - 1)
  {
    assert (2 * p - 1) / 2 == p - 1 && (2 * p - 1) % 2 == 1;
  }

  lemma HalfRemainder(x: nat, p: nat)
    requires p > 0
    ensures x % (2 * p) == 2 * (x / 2 % p) + x % 2
  {
    DivMod(x / 2, p);
    var q := x / 2 / p;
    assert 2 * (q * p) == q * (2 * p);
    DivModUnique(x, 2 * p, q, 2 * (x / 2 % p) + x % 2);
  }

  lemma {:induction false} AndZero(x: nat)
    ensures And(x, 0) == 0
  {
    if x > 0 {
      AndZero(x / 2);
    }
  }

  /** Multiplying by p = m / q moves the quotient by q above m and leaves the remainder below. */
  lemma SplitProduct(x: nat, p: nat, q: nat, m: nat)
    requires p > 0 && q > 0 && p * q == m
    ensures x * p == (x / q) * m + (x % q) * p
    ensures 0 <= (x % q) * p < m
    ensures (x * p) % m == (x % q) * p
    ensures ((x % q) * p) % p == 0
  {
    DivMod(x, q);
    var h, l := x / q, x % q;
    MulDistribute(h, q, l, p);
    MulMono(l + 1, q, p);
    DivModUnique(x * p, m, h, l * p);
    DivModUnique(l * p, p, l, 0);
  }

  lemma MulDistribute(h: int, q: int, l: int, p: int)
    ensures (h * q + l) * p == h * (p * q) + l * p
  {
  }

  lemma QuotientBelow(x: nat, p: nat, q: nat)
    requires q > 0 && x < p * q
    ensures x / q < p
  {
    DivMod(x, q);
    if x / q >= p {
      MulMono(p, x / q, q);
    }
  }

  /** Shifting a word left by n keeps its low 64 - n bits; the others are the quotient. */
  lemma ShlSplit(x: Word, n: nat, m: nat)
    requires 0 < n && 0 < m && n + m == 64
    ensures Pow2(n) * Pow2(m) == TWO_TO_THE_64
    ensures Shl(x, n) == (x % Pow2(m)) * Pow2(n)
    ensures x * Pow2(n) == Shr(x, m) * TWO_TO_THE_64 + Shl(x, n)
    ensures Shr(x, m) < Pow2(n)
    ensures Shl(x, n) % Pow2(n) == 0
  {
    Pow2Add(n, m);
    Pow2Is64();
    SplitProduct(x, Pow2(n), Pow2(m), TWO_TO_THE_64);
    QuotientBelow(x, Pow2(n), Pow2(m));
  }
}
