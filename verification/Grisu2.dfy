/** The digits that Grisu2 gives for a double always read as that double. */
module Grisu2 {
  import opened Arith
  import opened RealPowers
  import opened Bytes
  import opened Numerals
  import opened Itoa
  import opened DiyFloats
  import opened Grisu

  // ---------------------------------------------------------------- products of reals

  /** A product by name: the proofs below name the law that each step uses. */
  ghost function Mul(x: real, y: real): real {
    x * y
  }

  ghost function Units(n: int, u: real): real {
    Mul(n as real, u)
  }

  lemma Comm(x: real, y: real)
    ensures Mul(x, y) == Mul(y, x)
  {
  }

  lemma Group(x: real, y: real, z: real)
    ensures Mul(x, Mul(y, z)) == Mul(y, Mul(x, z)) == Mul(Mul(x, y), z)
  {
  }

  lemma One(x: real)
    ensures Mul(x, 1.0) == x == Mul(1.0, x)
  {
  }

  lemma PositiveMul(x: real, y: real)
    ensures x > 0.0 && y > 0.0 ==> Mul(x, y) > 0.0
  {
  }

  lemma CancelMul(x: real, y: real, z: real)
    requires x > 0.0
    ensures (Mul(x, y) == Mul(x, z) <==> y == z) && (Mul(x, y) < Mul(x, z) <==> y < z)
    ensures (Mul(y, x) == Mul(z, x) <==> y == z) && (Mul(y, x) < Mul(z, x) <==> y < z)
  {
  }

  lemma Spread(x: real, y: real, z: real)
    ensures Mul(x, y + z) == Mul(x, y) + Mul(x, z) && Mul(x, y - z) == Mul(x, y) - Mul(x, z)
    ensures Mul(y + z, x) == Mul(y, x) + Mul(z, x)
    ensures Mul(x, y / 2.0) == Mul(x, y) / 2.0
  {
  }

  lemma Times(n: int, m: int, u: real)
    requires u > 0.0
    ensures n <= m ==> Units(n, u) <= Units(m, u)
  {
    CancelMul(u, m as real, n as real);
  }

  lemma Plus(n: int, m: int, u: real)
    ensures Units(n + m, u) == Units(n, u) + Units(m, u)
    ensures Units(1, u) == u
  {
    Spread(u, n as real, m as real);
    One(u);
  }

  lemma IntProduct(n: int, m: int)
    ensures (n * m) as real == Mul(n as real, m as real)
  {
  }

  lemma ProductReal(x: int, c: int, u: real)
    ensures Units(x * c, u) == Mul(x as real, Units(c, u))
  {
    hide Mul;
    IntProduct(x, c);
    Group(x as real, c as real, u);
  }

  // ---------------------------------------------------------------- powers

  lemma PowAddReal(b: real, i: int, j: int)
    requires b > 0.0
    ensures RealPow(b, i + j) == Mul(RealPow(b, i), RealPow(b, j))
  {
    hide RealPow;
    RealPowAdd(b, i, j);
  }

  lemma {:induction false} PowersAgree(k: nat)
    ensures Pow(2, k) as real == RealPow(2.0, k) && Pow10(k) as real == RealPow(10.0, k)
  {
    if k > 0 {
      PowersAgree(k - 1);
      assert Pow(2, k) == 2 * Pow(2, k - 1) && Pow10(k) == 10 * Pow10(k - 1);
    }
  }

  // ---------------------------------------------------------------- the scaled boundaries

  ghost function Value(d: DiyFp): real {
    Units(d.f, RealPow(2.0, d.e))
  }

  /** A normal number no more than half a unit away from a power of ten. */
  ghost predicate NearTen(c: DiyFp, q: int) {
    && Normal(c)
    && Value(c) - RealPow(2.0, c.e) / 2.0 <= RealPow(10.0, q) <= Value(c) + RealPow(2.0, c.e) / 2.0
  }

  /** A boundary times `c`, rounded and moved inwards by one unit, has not passed the boundary
      times the power of ten. `u` is the unit of `c`. */
  lemma Inwards(x: U64, c: U64, u: real, t: real)
    requires u > 0.0 && Units(c, u) - u / 2.0 <= t <= Units(c, u) + u / 2.0
    ensures Units(RoundedProduct(x, c) - 1, Units(WORD, u)) < Units(x, t) < Units(RoundedProduct(x, c) + 1, Units(WORD, u))
  {
    hide RoundedProduct, Units;
    var r := RoundedProduct(x, c);
    TenInUnits(x, c, u, t, x * c);
    RoundedInUnits(r, x, x * c, r * WORD, u);
    MovedInUnits(r, r * WORD, u);
  }

  lemma RoundedInUnits(r: int, x: int, xc: int, rb: int, u: real)
    requires u > 0.0 && x < WORD && rb <= xc + TOP < rb + WORD
    ensures Units(rb, u) - Units(WORD, u) < Units(xc, u) - Units(x, u) / 2.0
    ensures Units(xc, u) + Units(x, u) / 2.0 < Units(rb, u) + Units(WORD, u)
  {
    hide Units;
    Times(rb, xc + TOP, u);
    Times(xc + TOP + 1, rb + WORD, u);
    Times(x + 1, WORD, u);
    Plus(xc, TOP, u);
    Plus(xc + TOP, 1, u);
    Plus(rb, WORD, u);
    Plus(x, 1, u);
    Plus(TOP, TOP, u);
  }

  lemma TenInUnits(x: U64, c: U64, u: real, t: real, xc: int)
    requires Units(c, u) - u / 2.0 <= t <= Units(c, u) + u / 2.0 && xc == x * c
    ensures Units(xc, u) - Units(x, u) / 2.0 <= Units(x, t) <= Units(xc, u) + Units(x, u) / 2.0
  {
    hide Mul;
    var xr, cu := x as real, Units(c, u);
    ProductReal(x, c, u);
    Spread(xr, cu, u / 2.0);
    Spread(xr, u, u);
    if x > 0 {
      CancelMul(xr, t, cu - u / 2.0);
      CancelMul(xr, cu + u / 2.0, t);
    } else {
      Nothing(t);
      Nothing(cu - u / 2.0);
      Nothing(cu + u / 2.0);
    }
  }

  lemma Nothing(x: real)
    ensures Mul(0.0, x) == 0.0
  {
  }

  lemma MovedInUnits(r: int, rb: int, u: real)
    requires rb == r * WORD
    ensures Units(r - 1, Units(WORD, u)) == Units(rb, u) - Units(WORD, u)
    ensures Units(r + 1, Units(WORD, u)) == Units(rb, u) + Units(WORD, u)
  {
    hide Mul;
    Plus(r - 1, 1, Units(WORD, u));
    Plus(r, 1, Units(WORD, u));
    ProductReal(r, WORD, u);
  }

  // ---------------------------------------------------------------- the digits on the real line

  /** The factors of `InInterval`, as one power of ten and one of two. */
  lemma Factors(b: Bounds, k: int, sh: nat)
    requires b.one == Pow(2, sh)
    ensures Unit(b, k) as real == Mul(ScaleUp(k) as real, Mul(RealPow(2.0, sh), RealPow(10.0, k)))
  {
    var two, ten := RealPow(2.0, sh), RealPow(10.0, k);
    ScaleIs(b, k);
    hide Mul, RealPow, ScaleUp, Unit, Pow, Pow10;
    PowersAgree(sh);
    if k < 0 {
      PowersAgree(0 - k);
      PowAddReal(10.0, k, 0 - k);
      RealPowZero(10.0);
      Comm(ten, RealPow(10.0, 0 - k));
      Group(RealPow(10.0, 0 - k), two, ten);
      One(two);
    } else {
      PowersAgree(k);
      IntProduct(Pow10(k), b.one);
      One(Mul(two, ten));
      Comm(two, ten);
    }
  }

  lemma ScaleIs(b: Bounds, k: int)
    ensures k < 0 ==> ScaleUp(k) == Pow10(0 - k) && Unit(b, k) == b.one
    ensures k >= 0 ==> ScaleUp(k) == 1 && Unit(b, k) == Pow10(k) * b.one
  {
  }

  /** The interval of the digits, on the real line. */
  lemma IntervalReal(b: Bounds, n: nat, k: int, sh: nat)
    requires b.one == Pow(2, sh) && b.delta <= b.m && InInterval(b, n, k)
    ensures (b.m - b.delta) as real <= Mul(RealPow(2.0, sh), Units(n, RealPow(10.0, k))) <= b.m as real
  {
    hide ScaleUp, Unit, RealPow, Pow, Mul;
    var up := ScaleUp(k) as real;
    var two, ten := RealPow(2.0, sh), RealPow(10.0, k);
    Factors(b, k, sh);
    IntProduct(b.m - b.delta, ScaleUp(k));
    IntProduct(n, Unit(b, k));
    IntProduct(b.m, ScaleUp(k));
    Group(n as real, up, Mul(two, ten));
    Group(n as real, two, ten);
    Comm((b.m - b.delta) as real, up);
    Comm(b.m as real, up);
    CancelMul(up, Mul(two, Units(n, ten)), (b.m - b.delta) as real);
    CancelMul(up, b.m as real, Mul(two, Units(n, ten)));
  }

  /** The exponents of the scaled boundaries cancel out. */
  lemma Cancels(sh: nat, e0: int, ce: int)
    requires sh + e0 + ce + 64 == 0
    ensures Mul(RealPow(2.0, sh), Mul(Units(WORD, RealPow(2.0, ce)), RealPow(2.0, e0))) == 1.0
  {
    hide RealPow, Mul;
    PowAddReal(2.0, sh, e0 + (ce + 64));
    PowAddReal(2.0, e0, ce + 64);
    PowAddReal(2.0, ce, 64);
    RealPowZero(2.0);
    PowersAgree(64);
    PowersOfTwo();
    Comm(RealPow(2.0, ce), WORD as real);
    Comm(RealPow(2.0, e0), Units(WORD, RealPow(2.0, ce)));
  }

  /** From the scaled interval back to the double: `d` is the decimal times the power of ten,
      `y` a scaled bound of it, and `xt` a boundary's significand times the power of ten. */
  lemma Back(d: real, two: real, y: real, w: real, e: real, xt: real)
    requires e > 0.0 && w > 0.0 && Mul(two, Mul(w, e)) == 1.0
    ensures Mul(two, d) <= y && Mul(y, w) < xt ==> d < Mul(xt, e)
    ensures Mul(two, d) >= y && Mul(y, w) > xt ==> d > Mul(xt, e)
  {
    hide Mul;
    CancelMul(w, y, Mul(two, d));
    CancelMul(w, Mul(two, d), y);
    CancelMul(e, Mul(Mul(two, d), w), xt);
    CancelMul(e, xt, Mul(Mul(two, d), w));
    Group(Mul(two, d), w, e);
    Comm(two, d);
    Group(d, two, Mul(w, e));
    One(d);
  }

  /** The heart of Grisu2. Digits in the scaled interval denote, at the decimal exponent
      `k - q`, a number strictly between the boundaries of the double. */
  lemma ReadsBack(v: DiyFp, s: nat, c: DiyFp, q: int, sh: nat, n: nat, k: int)
    requires UpperFits(v, s) && NearTen(c, q) && sh + (v.e - 1 - s) + c.e + 64 == 0
    requires
      var hi, lo := RoundedProduct(Upper(v, s).f, c.f) - 1, RoundedProduct(Lower(v, s).f, c.f) + 1;
      0 <= lo <= hi && InInterval(Bounds(hi, hi - lo, Pow(2, sh)), n, k)
    ensures Value(Lower(v, s)) < Units(n, RealPow(10.0, k - q)) < Value(Upper(v, s))
  {
    hide RealPow, RoundedProduct, Upper, Lower, UpperFits, Pow, InInterval, Mul, Units, Normal;
    SameExponent(v, s);
    var u, t, e0, two := RealPow(2.0, c.e), RealPow(10.0, q), RealPow(2.0, v.e - 1 - s), RealPow(2.0, sh);
    var up, lw := Upper(v, s), Lower(v, s);
    var hi, lo := RoundedProduct(up.f, c.f) - 1, RoundedProduct(lw.f, c.f) + 1;
    var d := Units(n, RealPow(10.0, k));
    Inwards(up.f, c.f, u, t);
    Inwards(lw.f, c.f, u, t);
    IntervalReal(Bounds(hi, hi - lo, Pow(2, sh)), n, k, sh);
    Cancels(sh, v.e - 1 - s, c.e);
    Wide(u);
    UnitsAre(hi, Units(WORD, u));
    UnitsAre(lo, Units(WORD, u));
    Back(d, two, hi as real, Units(WORD, u), e0, Units(up.f, t));
    Back(d, two, lo as real, Units(WORD, u), e0, Units(lw.f, t));
    PowAddReal(10.0, q, k - q);
    OverTen(n, RealPow(10.0, k - q), t, up.f, e0);
    OverTen(n, RealPow(10.0, k - q), t, lw.f, e0);
  }

  lemma Wide(u: real)
    requires u > 0.0
    ensures Units(WORD, u) > 0.0
  {
    PositiveMul(WORD as real, u);
  }

  lemma UnitsAre(n: int, u: real)
    ensures Units(n, u) == Mul(n as real, u)
  {
  }

  lemma SameExponent(v: DiyFp, s: nat)
    requires UpperFits(v, s)
    ensures Upper(v, s).e == Lower(v, s).e == v.e - 1 - s
  {
  }

  lemma OverTen(n: int, ten: real, t: real, x: int, e: real)
    requires t > 0.0
    ensures Units(n, Mul(t, ten)) < Mul(Units(x, t), e) ==> Units(n, ten) < Units(x, e)
    ensures Units(n, Mul(t, ten)) > Mul(Units(x, t), e) ==> Units(n, ten) > Units(x, e)
  {
    hide Mul;
    Group(n as real, t, ten);
    Group(t, x as real, e);
    Comm(t, x as real);
    CancelMul(t, Units(n, ten), Units(x, e));
    CancelMul(t, Units(x, e), Units(n, ten));
  }

  // ---------------------------------------------------------------- the algorithm

  /** The number of fractional bits of the scaled boundaries. */
  function FractionBits(v: DiyFp, s: nat, c: DiyFp): int {
    0 - (v.e - 1 - s + c.e + 64)
  }

  /** Numbers well apart stay apart when multiplied and rounded. */
  lemma Apart(x: U64, y: U64, c: U64)
    requires x + 0x200 <= y && c >= TOP
    ensures RoundedProduct(x, c) + 2 <= RoundedProduct(y, c)
  {
    Mono(x + 0x200, y, c);
    Dist(x, 0x200, c);
  }

  lemma LargeProduct(x: U64, c: U64)
    requires x >= TOP && c >= TOP
    ensures RoundedProduct(x, c) > 0x1000_0000_0000_0000
  {
    Mono(TOP, x, c);
    Mono(TOP, c, TOP);
  }

  /** The scaled number lies between the scaled boundaries, with a unit to spare on each side. */
  lemma ScaledApart(v: DiyFp, s: nat, z: nat, c: DiyFp, sh: nat)
    requires UpperFits(v, s) && Normal(c) && 32 <= sh <= 60 && TOP <= v.f * Pow(2, z) < WORD
    ensures z == s + 1
    ensures
      var lo, w, hi := RoundedProduct(Lower(v, s).f, c.f) + 1, RoundedProduct(v.f * Pow(2, z), c.f), RoundedProduct(Upper(v, s).f, c.f) - 1;
      lo < w < hi && hi >= Pow(2, sh)
  {
    hide RoundedProduct, Pow, Upper, Lower;
    BoundariesApart(v, s);
    NormalOnce(v.f, z, s + 1);
    UnitRange(sh);
    Apart(Lower(v, s).f, v.f * Pow(2, z), c.f);
    Apart(v.f * Pow(2, z), Upper(v, s).f, c.f);
    LargeProduct(Upper(v, s).f, c.f);
  }

  lemma BoundariesApart(v: DiyFp, s: nat)
    requires UpperFits(v, s)
    ensures TOP <= v.f * Pow(2, s + 1) < WORD && Upper(v, s).f >= TOP
    ensures Lower(v, s).f + 0x200 <= v.f * Pow(2, s + 1) && v.f * Pow(2, s + 1) + 0x200 <= Upper(v, s).f
  {
    hide Pow;
    LowerFits(v, s);
  }

  lemma AtLeastOne(m: nat, p: nat)
    requires 0 < p <= m
    ensures m / p >= 1
  {
  }

  /** The digits and the decimal exponent for a positive double, given its boundaries and a power
      of ten near `10^q`. */
  method Generate(v: DiyFp, wm: DiyFp, wp: DiyFp, c: DiyFp, q: int, buffer: Buffer, ghost s: nat) returns (K: int)
    requires UpperFits(v, s) && wp == Upper(v, s) && wm == Lower(v, s) && NearTen(c, q) && 32 <= FractionBits(v, s, c) <= 60
    requires (RoundedProduct(Upper(v, s).f, c.f) - 1) / Pow(2, FractionBits(v, s, c)) < 1000000000
    requires buffer.Valid() && buffer.Written() == [] && buffer.chars.Length >= 28
    modifies buffer, buffer.chars
    ensures buffer.Valid() && Digits(buffer.Written())
    ensures Value(Lower(v, s)) < Units(Decimal(buffer.Written()), RealPow(10.0, K)) < Value(Upper(v, s))
  {
    hide RoundedProduct, Pow, Generated, RealPow, Units, Decimal, InInterval, NoneAt, Closest, Digits, Lower, Upper;
    SameExponent(v, s);
    var vn, z := Normalize(v);
    ghost var sh := FractionBits(v, s, c);
    ScaledApart(v, s, z, c, sh);
    var scaled := Multiply(vn, c);
    var hi := Multiply(wp, c);
    var lo := Multiply(wm, c);
    var low: U64, high: U64 := lo.f + 1, hi.f - 1;
    AtLeastOne(high, Pow(2, sh));
    K := DigitGen(scaled.f, high, 0 - hi.e, high - low, buffer);
    InsideInterval(Bounds(high, high - low, Pow(2, sh)), buffer.Written(), K, scaled.f);
    ReadsBack(v, s, c, q, sh, Decimal(buffer.Written()), K);
    K := K - q;
  }

  lemma InsideInterval(b: Bounds, t: Text, k: int, w: nat)
    requires Generated(b, t, k, w)
    ensures Digits(t) && AllDigits(t) && InInterval(b, Decimal(t), k)
  {
  }
}
