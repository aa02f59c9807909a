/** Grisu2 for every positive double, with the power of ten that the table gives. */
module Dtoa {
  import opened Arith
  import opened RealPowers
  import opened Bytes
  import opened Numerals
  import opened Itoa
  import opened DiyFloats
  import opened CachedPowers
  import opened Grisu
  import opened Grisu2

  // ---------------------------------------------------------------- accuracy of the table

  lemma {:induction false} TenIsTwoFives(i: int)
    ensures RealPow(10.0, i) == Mul(RealPow(2.0, i), RealPow(5.0, i))
    decreases if i < 0 then 0 - i else i
  {
    hide RealPow, Mul;
    if i == 0 {
      RealPowZero(10.0);
      RealPowZero(2.0);
      RealPowZero(5.0);
      One(1.0);
    } else {
      var j := if i > 0 then i - 1 else i;
      TenIsTwoFives(if i > 0 then i - 1 else i + 1);
      RealPowStep(10.0, j);
      RealPowStep(2.0, j);
      RealPowStep(5.0, j);
      TenSteps(RealPow(10.0, j), RealPow(2.0, j), RealPow(5.0, j));
    }
  }

  lemma TenSteps(t: real, w: real, f: real)
    ensures 10.0 * t == Mul(2.0 * w, 5.0 * f) <==> t == Mul(w, f)
  {
    Group(w, 5.0, f);
    assert Mul(2.0 * w, 5.0 * f) == 10.0 * Mul(w, f) by { TenTimes(w, f); }
  }

  lemma TenTimes(w: real, f: real)
    ensures Mul(2.0 * w, 5.0 * f) == 10.0 * Mul(w, f)
  {
  }

  lemma {:induction false} FivePower(k: nat)
    ensures Pow(5, k) as real == RealPow(5.0, k)
  {
    if k > 0 {
      FivePower(k - 1);
      assert Pow(5, k) == 5 * Pow(5, k - 1);
    }
  }

  /** A sandwich keeps when all is multiplied. */
  lemma Scaled3(a: nat, b: nat, c: nat, k: real)
    requires k > 0.0
    ensures a - b <= c ==> Units(a, k) - Units(b, k) <= Units(c, k)
    ensures c <= a + b ==> Units(c, k) <= Units(a, k) + Units(b, k)
  {
    hide Units;
    Times(a, c + b, k);
    Times(c, a + b, k);
    Plus(c, b, k);
    Plus(a, b, k);
  }

  lemma HalfUnit(f: nat, e: int)
    ensures RealPow(2.0, e - 1) == RealPow(2.0, e) / 2.0
    ensures Units(2 * f, RealPow(2.0, e - 1)) == Units(f, RealPow(2.0, e))
  {
    hide RealPow;
    RealPowStep(2.0, e - 1);
    DoubleHalf(f, RealPow(2.0, e - 1));
  }

  lemma DoubleHalf(f: nat, u: real)
    ensures Units(2 * f, u) == Units(f, 2.0 * u)
  {
    var g := f as real;
    assert (2 * f) as real == 2.0 * g;
  }

  /** An entry below 1, from its natural form, with the factor 2^(e-1) / 5^m. */
  lemma NearFromBelow(c: DiyFp, m: nat, n: nat)
    requires Normal(c) && n == 1 - c.e - m
    requires Pow(2, n) - Pow(5, m) <= 2 * c.f * Pow(5, m) <= Pow(2, n) + Pow(5, m)
    ensures NearTen(c, 0 - m)
  {
    hide RealPow, Mul, Pow, Normal;
    var half, fifth := RealPow(2.0, c.e - 1), RealPow(5.0, 0 - m);
    var k := Mul(half, fifth);
    PositiveMul(half, fifth);
    FivePower(m);
    PowersAgree(n);
    RealPowZero(5.0);
    PowAddReal(5.0, m, 0 - m);
    Group(Pow(5, m) as real, half, fifth);
    One(half);
    assert Units(Pow(5, m), k) == half;
    PowAddReal(2.0, n, c.e - 1);
    Group(Pow(2, n) as real, half, fifth);
    TenIsTwoFives(0 - m);
    assert Units(Pow(2, n), k) == RealPow(10.0, 0 - m);
    ProductReal(2 * c.f, Pow(5, m), k);
    HalfUnit(c.f, c.e);
    assert Units(2 * c.f * Pow(5, m), k) == Value(c);
    Scaled3(Pow(2, n), Pow(5, m), 2 * c.f * Pow(5, m), k);
  }

  /** An entry above 1, with the factor 2^(m-1). */
  lemma NearFromAbove(c: DiyFp, m: nat, n: nat)
    requires Normal(c) && n == c.e - m
    requires 2 * Pow(5, m) - Pow(2, n) <= 2 * c.f * Pow(2, n) <= 2 * Pow(5, m) + Pow(2, n)
    ensures NearTen(c, m)
  {
    hide RealPow, Mul, Pow, Normal;
    var k := RealPow(2.0, m - 1);
    FivePower(m);
    PowersAgree(n);
    HalfUnit(Pow(5, m), m);
    TenIsTwoFives(m);
    Comm(Pow(5, m) as real, RealPow(2.0, m));
    assert Units(2 * Pow(5, m), k) == RealPow(10.0, m);
    PowAddReal(2.0, n, m - 1);
    assert Units(Pow(2, n), k) == RealPow(2.0, c.e - 1);
    ProductReal(2 * c.f, Pow(2, n), k);
    HalfUnit(c.f, c.e);
    assert Units(2 * c.f * Pow(2, n), k) == Value(c);
    Scaled3(2 * Pow(5, m), Pow(2, n), 2 * c.f * Pow(2, n), k);
  }

  /** An exact entry. */
  lemma NearFromExact(c: DiyFp, m: nat, n: nat)
    requires Normal(c) && n == m - c.e && c.f == Pow(5, m) * Pow(2, n)
    ensures NearTen(c, m)
  {
    hide RealPow, Mul, Pow, Normal;
    var u := RealPow(2.0, c.e);
    FivePower(m);
    PowersAgree(n);
    PowAddReal(2.0, n, c.e);
    ProductReal(Pow(5, m), Pow(2, n), u);
    TenIsTwoFives(m);
    Comm(Pow(5, m) as real, RealPow(2.0, m));
    assert Value(c) == RealPow(10.0, m);
  }

  /** Every entry of the table is normal and within half a unit of its power of ten. */
  lemma TableIsNear(i: nat)
    requires i < COUNT
    ensures NearTen(GetCachedPowerByIndex(i), TenAt(i))
  {
    hide Pow, GetCachedPowerByIndex, NearTen;
    AllNear(i);
    AllNormal(i);
    var c := GetCachedPowerByIndex(i);
    if i < 44 {
      NearFromBelow(c, 348 - 8 * i, 8 * i - 347 - c.e);
    } else if c.e - (8 * i - 348) >= 0 {
      NearFromAbove(c, 8 * i - 348, c.e - (8 * i - 348));
    } else {
      NearFromExact(c, 8 * i - 348, 8 * i - 348 - c.e);
    }
  }

  // ---------------------------------------------------------------- the digits of a double

  /** The significands and exponents of the positive finite doubles. */
  predicate IsDouble(v: DiyFp) {
    && 0 < v.f < 2 * HIDDEN_BIT && -1074 <= v.e <= 971
    && (v.f >= HIDDEN_BIT || v.e == -1074)
  }

  /** The exponents of the boundaries stay where the table was made for. */
  lemma BoundaryExponent(v: DiyFp, s: nat)
    requires IsDouble(v) && UpperFits(v, s)
    ensures -1137 <= v.e - 1 - s <= 960
  {
    hide Pow;
    ShiftBounded(v.f, s);
  }

  /** A rounded product is no larger than a normal factor. */
  lemma NotLarger(x: U64, c: U64)
    requires c >= TOP
    ensures RoundedProduct(x, c) <= c
  {
    Mono(x, WORD - 1, c);
  }

  lemma OverPower(n: nat, p: nat, b: nat)
    requires p > 0 && n < b * p
    ensures n / p < b
  {
    if n / p >= b { Mono(b, n / p, p); }
  }

  lemma ThirtyFour()
    ensures Pow(2, 34) == 0x4_0000_0000 && Pow(2, 35) == 0x8_0000_0000
  {
    PowersOfTwo();
    assert Pow(2, 35) == 2 * Pow(2, 34) && Pow(2, 34) == 2 * Pow(2, 33) && Pow(2, 33) == 2 * Pow(2, 32);
  }

  /** The scaled upper boundary has at most nine digits before the point. */
  lemma NineDigits(x: U64, c: DiyFp, e: int)
    requires Normal(c) && Suits(c, e) && RoundedProduct(x, c.f) > 0
    ensures (RoundedProduct(x, c.f) - 1) / Pow(2, 0 - (e + c.e + 64)) < 1000000000
  {
    hide Pow, RoundedProduct;
    var bits := 0 - (e + c.e + 64);
    NotLarger(x, c.f);
    ThirtyFour();
    if bits > 34 {
      PowGrows(2, 35, bits);
      Mono(Pow(2, 35), Pow(2, bits), 1000000000);
    }
    OverPower(RoundedProduct(x, c.f) - 1, Pow(2, bits), 1000000000);
  }

  lemma ProductPositive(v: DiyFp, s: nat, c: DiyFp)
    requires UpperFits(v, s) && Normal(c)
    ensures RoundedProduct(Upper(v, s).f, c.f) > 0
  {
    hide RoundedProduct, Pow, Lower;
    BoundariesApart(v, s);
    LargeProduct(Upper(v, s).f, c.f);
  }

  /** What the double arithmetic makes of `Wanted` is near it, however it rounds. */
  ghost predicate Accurate(dk: int -> real) {
    forall e :: -1137 <= e <= 960 ==> Computed(e, dk(e))
  }

  /** Half way to the next larger double. */
  ghost function HalfWayUp(v: DiyFp): real {
    Units(2 * v.f + 1, RealPow(2.0, v.e - 1))
  }

  /** Half way to the next smaller one, which is nearer below a power of two. */
  ghost function HalfWayDown(v: DiyFp): real {
    if v.f == HIDDEN_BIT then Units(4 * v.f - 1, RealPow(2.0, v.e - 2)) else Units(2 * v.f - 1, RealPow(2.0, v.e - 1))
  }

  /** A shift keeps the value. */
  lemma ShiftKeepsValue(f: nat, s: nat, e: int)
    ensures Units(f * Pow(2, s), RealPow(2.0, e - s)) == Units(f, RealPow(2.0, e))
  {
    hide Pow, RealPow, Mul;
    PowersAgree(s);
    PowAddReal(2.0, s, e - s);
    ProductReal(f, Pow(2, s), RealPow(2.0, e - s));
  }

  lemma BoundariesAreHalfWay(v: DiyFp, s: nat)
    requires UpperFits(v, s)
    ensures Value(Upper(v, s)) == HalfWayUp(v) && Value(Lower(v, s)) == HalfWayDown(v)
  {
    hide Pow, RealPow, Units;
    ShiftKeepsValue(2 * v.f + 1, s, v.e - 1);
    if v.f == HIDDEN_BIT {
      ShiftKeepsValue(4 * v.f - 1, s - 1, v.e - 2);
    } else {
      ShiftKeepsValue(2 * v.f - 1, s, v.e - 1);
    }
  }

  /** For every positive double the digits and the exponent denote a decimal strictly between
      the half-way points to its neighbours, so that they read as this double. */
  method DoubleDigits(v: DiyFp, dk: int -> real, buffer: Buffer) returns (K: int)
    requires IsDouble(v) && Accurate(dk)
    requires buffer.Valid() && buffer.Written() == [] && buffer.chars.Length >= 28
    modifies buffer, buffer.chars
    ensures buffer.Valid() && Digits(buffer.Written())
    ensures HalfWayDown(v) < Units(Decimal(buffer.Written()), RealPow(10.0, K)) < HalfWayUp(v)
  {
    hide Pow, RealPow, Units, Decimal, Digits, RoundedProduct, Upper, Lower, UpperFits, HalfWayUp, HalfWayDown, GetCachedPowerByIndex, Suits, Computed, Normal;
    var wm, wp, s := NormalizedBoundaries(v);
    SameExponent(v, s);
    BoundaryExponent(v, s);
    var c, mk, i := GetCachedPower(wp.e, dk(wp.e));
    TableIsNear(i);
    ChoiceFits(v, s, c);
    K := Generate(v, wm, wp, c, 0 - mk, buffer, s);
    BoundariesAreHalfWay(v, s);
  }

  /** All that the digit generation needs of the entry. */
  lemma ChoiceFits(v: DiyFp, s: nat, c: DiyFp)
    requires UpperFits(v, s) && Normal(c) && Suits(c, v.e - 1 - s)
    ensures 32 <= FractionBits(v, s, c) <= 60
    ensures (RoundedProduct(Upper(v, s).f, c.f) - 1) / Pow(2, FractionBits(v, s, c)) < 1000000000
  {
    hide Pow, RoundedProduct, Upper, Normal, UpperFits;
    ProductPositive(v, s, c);
    NineDigits(Upper(v, s).f, c, v.e - 1 - s);
  }
}
