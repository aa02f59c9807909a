/** Laws of multiplication, one at a time, for proofs that should not rediscover them. */
module Arith {

  type U64 = x: int | 0 <= x < 0x1_0000_0000_0000_0000

  lemma Assoc(x: int, y: int, z: int)
    ensures x * (y * z) == (x * y) * z
  {
  }

  /** `x * (y * z)` with the factors in another order. */
  lemma Swap(x: int, y: int, z: int)
    ensures x * (y * z) == y * (x * z)
  {
  }

  lemma Pairs(a: int, b: int, x: int, y: int)
    ensures (a * b) * (x * y) == (a * x) * (b * y)
  {
    Assoc(a * b, x, y);
    Assoc(a * x, b, y);
    Assoc(a, b, x);
    Assoc(a, x, b);
  }

  lemma Dist(x: int, y: int, z: int)
    ensures (x + y) * z == x * z + y * z
    ensures z * (x + y) == z * x + z * y
  {
  }

  lemma DistMinus(x: int, y: int, z: int)
    ensures (x - y) * z == x * z - y * z
    ensures z * (x - y) == z * x - z * y
  {
  }

  lemma Mono(x: int, y: int, z: int)
    requires z >= 0
    ensures x <= y ==> x * z <= y * z && z * x <= z * y
  {
  }

  lemma MonoStrict(x: int, y: int, z: int)
    requires z > 0
    ensures x < y <==> x * z < y * z
    ensures x == y <==> x * z == y * z
  {
  }

  /** Quotient and remainder are unique. */
  lemma Divides(n: int, d: int, q: int, r: int)
    requires d > 0 && n == q * d + r && 0 <= r < d
    ensures n / d == q && n % d == r
  {
    var q2, r2 := n / d, n % d;
    assert n == q2 * d + r2;
    Mono(q2 + 1, q, d);
    Mono(q + 1, q2, d);
    Dist(q2, 1, d);
    Dist(q, 1, d);
  }

  // ---------------------------------------------------------------- powers

  function Pow(b: nat, e: nat): (p: nat)
    ensures b > 0 ==> p > 0
  {
    if e == 0 then 1 else b * Pow(b, e - 1)
  }

  lemma {:induction false} PowAdd(b: nat, e: nat, f: nat)
    ensures Pow(b, e + f) == Pow(b, e) * Pow(b, f)
    decreases e
  {
    if e > 0 {
      PowAdd(b, e - 1, f);
      Assoc(b, Pow(b, e - 1), Pow(b, f));
    }
  }

  lemma {:induction false} PowTimes(a: nat, b: nat, e: nat)
    ensures Pow(a * b, e) == Pow(a, e) * Pow(b, e)
    decreases e
  {
    if e > 0 {
      PowTimes(a, b, e - 1);
      Pairs(a, b, Pow(a, e - 1), Pow(b, e - 1));
    }
  }

  lemma {:induction false} PowGrows(b: nat, i: nat, j: nat)
    requires i <= j && b > 0
    ensures Pow(b, i) <= Pow(b, j)
    decreases j
  {
    if i < j {
      PowGrows(b, i, j - 1);
      Mono(1, b, Pow(b, j - 1));
    }
  }

  lemma PowZero(v: nat, b: nat)
    ensures v * Pow(b, 0) == v
  {
  }

  lemma ZeroTimes(x: int)
    ensures 0 * x == 0
  {
  }

  lemma SmallPowersOfTwo()
    ensures Pow(2, 0) == 1 && Pow(2, 1) == 2 && Pow(2, 3) == 8 && Pow(2, 4) == 16
    ensures Pow(2, 8) == 0x100 && Pow(2, 9) == 0x200 && Pow(2, 10) == 0x400
  {
    assert Pow(2, 4) == 2 * Pow(2, 3) == 4 * Pow(2, 2) == 8 * Pow(2, 1) == 16;
    assert Pow(2, 8) == 2 * Pow(2, 7) == 4 * Pow(2, 6) == 8 * Pow(2, 5) == 16 * Pow(2, 4);
    assert Pow(2, 10) == 2 * Pow(2, 9) == 4 * Pow(2, 8);
  }

  lemma PowersOfTwo()
    ensures Pow(2, 0) == 1 && Pow(2, 1) == 2 && Pow(2, 8) == 0x100 && Pow(2, 9) == 0x200 && Pow(2, 10) == 0x400
    ensures Pow(2, 32) == 0x1_0000_0000 && Pow(2, 60) == 0x1000_0000_0000_0000
    ensures Pow(2, 63) == 0x8000_0000_0000_0000 && Pow(2, 64) == 0x1_0000_0000_0000_0000
  {
    hide Pow;
    SmallPowersOfTwo();
    PowAdd(2, 8, 8);
    PowAdd(2, 16, 16);
    PowAdd(2, 32, 16);
    PowAdd(2, 48, 8);
    PowAdd(2, 56, 4);
    PowAdd(2, 60, 3);
    PowAdd(2, 60, 4);
  }

  // ---------------------------------------------------------------- products of words and half words

  const WORD: nat := 0x1_0000_0000_0000_0000
  const HALF_WORD: nat := 0x1_0000_0000

  /** A product of two words, and one more, fits two words. */
  lemma ProductFits(x: U64, y: U64, k: U64)
    ensures x * y + k < WORD * WORD
  {
    Mono(x, WORD - 1, y);
    Mono(y, WORD - 1, WORD - 1);
  }

  lemma HalvesFit(a: nat, b: nat)
    requires a < HALF_WORD && b < HALF_WORD
    ensures a * b <= (HALF_WORD - 1) * (HALF_WORD - 1)
  {
    Mono(a, HALF_WORD - 1, b);
    Mono(b, HALF_WORD - 1, HALF_WORD - 1);
  }

  /** A product of two words from the products of their halves. */
  lemma FourProducts(a: int, b: int, c: int, d: int, ad: int, bc: int, bd: int)
    requires ad == a * d && bc == b * c && bd == b * d
    ensures (a * HALF_WORD + b) * (c * HALF_WORD + d) == (a * c) * WORD + ad * HALF_WORD + bc * HALF_WORD + bd
  {
    Dist(a * HALF_WORD, b, c * HALF_WORD + d);
    Dist(c * HALF_WORD, d, a * HALF_WORD);
    Dist(c * HALF_WORD, d, b);
    Pairs(a, HALF_WORD, c, HALF_WORD);
  }
}
