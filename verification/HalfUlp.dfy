/** The exact comparison of a decimal number with a double: is their distance below, at or
    above half a unit in the last place? */
module HalfUlp {
  import opened Arith
  import opened RealPowers
  import opened BigNatural
  import opened BigShift
  import opened BigDifference
  import opened BigInteger

  // ---------------------------------------------------------------- powers of two and five

  /** The number `2^e2 * 5^e5`. */
  ghost function Scale(e2: int, e5: int): (r: real)
    ensures r > 0.0
  {
    Positive(RealPow(2.0, e2), RealPow(5.0, e5));
    RealPow(2.0, e2) * RealPow(5.0, e5)
  }

  lemma ScaleAdd(a2: int, a5: int, b2: int, b5: int)
    ensures Scale(a2 + b2, a5 + b5) == Scale(a2, a5) * Scale(b2, b5)
  {
    hide RealPow;
    RealPowAdd(2.0, a2, b2);
    RealPowAdd(5.0, a5, b5);
    Regroup(RealPow(2.0, a2), RealPow(2.0, b2), RealPow(5.0, a5), RealPow(5.0, b5));
  }

  lemma Regroup(a: real, b: real, c: real, d: real)
    ensures (a * b) * (c * d) == (a * c) * (b * d)
  {
    RealAssoc(a, b, c * d);
    RealAssoc(b, c, d);
    RealAssoc(a, c, b * d);
  }

  /** A natural number scaled by natural powers. */
  lemma ScaleNat(n: nat, e2: nat, e5: nat)
    ensures n as real * Scale(e2, e5) == ((n * Pow(5, e5)) * Pow(2, e2)) as real
  {
    hide RealPow, Pow;
    RealPowNat(2, e2);
    RealPowNat(5, e5);
    NatProduct(n, Pow(2, e2), Pow(5, e5));
  }

  lemma NatProduct(n: nat, x: nat, y: nat)
    ensures n as real * (x as real * y as real) == ((n * y) * x) as real
  {
    var p := n * y;
    assert n as real * y as real == p as real;
    assert p as real * x as real == (p * x) as real;
    RealAssoc(n as real, x as real, y as real);
  }

  // ---------------------------------------------------------------- the comparison

  ghost function Abs(x: real): real {
    if x < 0.0 then -x else x
  }

  ghost function RealSign(x: real): int {
    if x < 0.0 then -1 else if x > 0.0 then 1 else 0
  }

  /** The sign that the comparison is to report: of the distance between `d * 10^dExp` and the
      double `b * 2^bExp`, less half the last place of the double. */
  ghost function HalfUlpSign(b: nat, bExp: int, d: nat, dExp: int): int {
    var decimal, double, half := d as real * Scale(dExp, dExp), b as real * Scale(bExp, 0), Scale(bExp - 1, 0);
    RealSign(Abs(decimal - double) - half)
  }

  /** Scaling all three numbers by the same factor keeps the sign. */
  lemma SignScaled(x: real, y: real, z: real, s: real)
    requires s > 0.0
    ensures RealSign(Abs(x * s - y * s) - z * s) == RealSign(Abs(x - y) - z)
  {
    var u := Abs(x - y) - z;
    assert x * s - y * s == (x - y) * s;
    SignTimes(x - y, s);
    assert Abs((x - y) * s) == Abs(x - y) * s;
    assert Abs(x - y) * s - z * s == u * s;
    SignTimes(u, s);
  }

  lemma SignTimes(u: real, s: real)
    requires s > 0.0
    ensures RealSign(u * s) == RealSign(u)
  {
  }

  /** The exponents of 2 and 5 that make the three numbers natural: of the decimal, the double
      and half the last place. */
  datatype Exponents = Exponents(d2: int, d5: int, b2: int, b5: int, h2: int, h5: int)

  /** The exponents are those of one common factor. */
  ghost predicate Common(e: Exponents, bExp: int, dExp: int, k2: int, k5: int) {
    e.d2 == dExp + k2 && e.d5 == dExp + k5 && e.b2 == bExp + k2 && e.b5 == k5 && e.h2 == bExp - 1 + k2 && e.h5 == k5
  }

  predicate Natural(e: Exponents) {
    e.d2 >= 0 && e.d5 >= 0 && e.b2 >= 0 && e.b5 >= 0 && e.h2 >= 0 && e.h5 >= 0
  }

  function Min3(a: int, b: int, c: int): (m: int)
    ensures m <= a && m <= b && m <= c && (m == a || m == b || m == c)
  {
    var m := a;
    var m := if m > b then b else m;
    if m > c then c else m
  }

  /** The least exponents that are natural. */
  function ExponentsOf(bExp: int, dExp: int): (e: Exponents)
    ensures Natural(e) && (e.d2 == 0 || e.b2 == 0 || e.h2 == 0)
  {
    var k5 := if dExp < 0 then -dExp else 0;
    var k2 := -Min3(dExp, bExp, bExp - 1);
    Exponents(dExp + k2, dExp + k5, bExp + k2, k5, bExp - 1 + k2, k5)
  }

  /** The exponents of 5 do not change any more; those of 2 are all off by the same. */
  method RawExponents(bExp: int, dExp: int) returns (e: Exponents)
    ensures e.d5 == dExp + e.b5 && e.b5 == e.h5 == if dExp < 0 then -dExp else 0
    ensures e.d2 - dExp == e.b2 - bExp == e.h2 - (bExp - 1)
  {
    var hExp := bExp - 1;
    var d2, d5, b2, b5, h2, h5 := 0, 0, 0, 0, 0, 0;
    if dExp >= 0 {
      d2, d5 := d2 + dExp, d5 + dExp;
    } else {
      b2, b5, h2, h5 := b2 - dExp, b5 - dExp, h2 - dExp, h5 - dExp;
    }
    if bExp >= 0 {
      b2 := b2 + bExp;
    } else {
      d2, h2 := d2 - bExp, h2 - bExp;
    }
    if hExp >= 0 {
      h2 := h2 + hExp;
    } else {
      d2, b2 := d2 - hExp, b2 - hExp;
    }
    e := Exponents(d2, d5, b2, b5, h2, h5);
  }

  /** The bookkeeping of the exponents. They are natural, they belong to one common factor,
      and no smaller power of two would do. */
  method Bookkeeping(bExp: int, dExp: int) returns (e: Exponents, ghost k2: int, ghost k5: int)
    ensures e == ExponentsOf(bExp, dExp) && Natural(e) && Common(e, bExp, dExp, k2, k5)
    ensures e.d2 == 0 || e.b2 == 0 || e.h2 == 0
  {
    hide Min3;
    e := RawExponents(bExp, dExp);
    Shifted(e.d2, e.b2, e.h2, dExp, bExp);
    var common := Min3(e.d2, e.b2, e.h2);
    e := e.(d2 := e.d2 - common, b2 := e.b2 - common, h2 := e.h2 - common);
    k2, k5 := e.d2 - dExp, e.d5 - dExp;
  }

  /** Adding the same to all three moves their minimum by as much. */
  lemma Shifted(d2: int, b2: int, h2: int, dExp: int, bExp: int)
    requires d2 - dExp == b2 - bExp == h2 - (bExp - 1)
    ensures Min3(d2, b2, h2) == Min3(dExp, bExp, bExp - 1) + (d2 - dExp)
  {
  }

  /** A natural number times powers of 5 and 2. */
  function Scaled(n: nat, e5: nat, e2: nat): nat {
    (n * Pow(5, e5)) * Pow(2, e2)
  }

  /** The bookkeeping keeps the ratio of the three numbers. */
  lemma RatioKept(b: nat, bExp: int, d: nat, dExp: int, e: Exponents, k2: int, k5: int)
    requires Natural(e) && Common(e, bExp, dExp, k2, k5)
    ensures
      var dS, bS, hS := Scaled(d, e.d5, e.d2), Scaled(b, e.b5, e.b2), Scaled(1, e.h5, e.h2);
      HalfUlpSign(b, bExp, d, dExp) == Sign((if dS < bS then bS - dS else dS - bS) - hS)
  {
    hide Scale, Scaled;
    var s := Scale(k2, k5);
    ScaledIs(d, dExp, dExp, k2, k5);
    ScaledIs(b, bExp, 0, k2, k5);
    ScaledIs(1, bExp - 1, 0, k2, k5);
    var x, y, z := d as real * Scale(dExp, dExp), b as real * Scale(bExp, 0), 1.0 * Scale(bExp - 1, 0);
    SignScaled(x, y, z, s);
    SignNat(Scaled(d, e.d5, e.d2), Scaled(b, e.b5, e.b2), Scaled(1, e.h5, e.h2), x * s, y * s, z * s);
  }

  lemma SignNat(d: nat, b: nat, h: nat, x: real, y: real, z: real)
    requires x == d as real && y == b as real && z == h as real
    ensures RealSign(Abs(x - y) - z) == Sign((if d < b then b - d else d - b) - h)
  {
  }

  /** A number times a factor, from its own exponents. */
  lemma ScaledIs(n: nat, e2: int, e5: int, k2: int, k5: int)
    requires e2 + k2 >= 0 && e5 + k5 >= 0
    ensures (n as real * Scale(e2, e5)) * Scale(k2, k5) == Scaled(n, e5 + k5, e2 + k2) as real
  {
    hide Scale;
    ScaleAdd(e2, e5, k2, k5);
    ScaleNat(n, e2 + k2, e5 + k5);
    RealAssoc(n as real, Scale(e2, e5), Scale(k2, k5));
  }

  // ---------------------------------------------------------------- in big integers

  /** The limbs of a number. */
  function LimbsOf(n: nat): (ds: seq<Limb>)
    ensures |ds| > 0
  {
    if n < B then [n] else [n % B] + LimbsOf(n / B)
  }

  lemma {:induction false} LimbsOfIs(n: nat)
    ensures Normal(LimbsOf(n)) && Value(LimbsOf(n)) == n
    decreases n
  {
    OneLimb(n % B);
    if n >= B {
      var rest := LimbsOf(n / B);
      LimbsOfIs(n / B);
      ValueConcat([n % B], rest);
      assert W(1) == B * W(0);
      assert LimbsOf(n)[|rest|] == rest[|rest| - 1];
      if |rest| == 1 {
        OneLimb(rest[0]);
        assert rest == [rest[0]];
      }
    }
  }

  /** Normal forms are unique. */
  lemma LimbsAre(ds: seq<Limb>)
    requires Normal(ds)
    ensures ds == LimbsOf(Value(ds))
  {
    var es := LimbsOf(Value(ds));
    LimbsOfIs(Value(ds));
    if |ds| < |es| { FewerLimbs(ds, es); }
    if |es| < |ds| { FewerLimbs(es, ds); }
    SameLimbs(ds, es);
  }

  /** What a shift of the number `v` may give. By a whole number of limbs it reads places above
      the number, which may hold anything. */
  ghost predicate ShiftsTo(v: nat, shift: nat, x: nat) {
    exists all: seq<Limb> :: Holds(all, v, shift) && x == AfterShift(all, v, shift)
  }

  /** An array that holds `v` and has room for the shift. */
  ghost predicate Holds(all: seq<Limb>, v: nat, shift: nat) {
    |all| == CAPACITY && |LimbsOf(v)| <= CAPACITY && all[..|LimbsOf(v)|] == LimbsOf(v) && Room(v, shift)
  }

  ghost function AfterShift(all: seq<Limb>, v: nat, shift: nat): nat
    requires Holds(all, v, shift)
  {
    if shift == 0 || v == 0 then v else ShiftResult(all, |LimbsOf(v)|, shift)
  }

  ghost predicate Room(v: nat, shift: nat) {
    v < W(CAPACITY) && (shift == 0 || v == 0 || Fits(|LimbsOf(v)|, shift))
  }

  /** A shift that does what it should: no whole limbs, or a single one to move. */
  predicate SafeShift(v: nat, shift: nat) {
    shift == 0 || shift % 64 != 0 || v < B
  }

  lemma SafeShiftsTo(v: nat, shift: nat, x: nat)
    requires ShiftsTo(v, shift, x) && SafeShift(v, shift)
    ensures x == v * Pow(2, shift)
  {
    var all :| Holds(all, v, shift) && x == AfterShift(all, v, shift);
    hide W, Value, Pow, Normal, ShiftResult, ShiftExact, LimbsOf;
    var ds := LimbsOf(v);
    LimbsOfIs(v);
    if shift == 0 {
      PowZero(v, 2);
    } else if v == 0 {
      ZeroTimes(Pow(2, shift));
    } else {
      if v < B {
        OneLimbWeight();
        NormalCount(ds, 1);
      }
      assert |ds| > 0;
      ShiftResultExact(all, |ds|, shift);
      RoomIs(|ds|, shift);
      ShiftSafe(all, |ds|, shift);
    }
  }

  lemma RoomIs(n: nat, shift: nat)
    requires n > 0 && Fits(n, shift)
    ensures shift / 64 + n <= CAPACITY
  {
  }

  lemma OneLimbWeight()
    ensures W(1) == B
  {
    assert W(1) == B * W(0);
  }

  lemma ZeroForm(ds: seq<Limb>)
    requires Normal(ds) && Value(ds) == 0
    ensures ds == [0]
  {
    if |ds| > 1 { NormalLarge(ds); }
    assert ds == [ds[0]];
    OneLimb(ds[0]);
  }

  /** The value that a big integer holds, and the array that holds it. */
  lemma HeldBy(all: seq<Limb>, n: nat, shift: nat)
    requires |all| == CAPACITY && 0 < n <= CAPACITY && Normal(all[..n]) && Room(Value(all[..n]), shift)
    ensures LimbsOf(Value(all[..n])) == all[..n] && Holds(all, Value(all[..n]), shift)
    ensures n == 1 && all[0] == 0 <==> Value(all[..n]) == 0
  {
    hide W, Pow;
    LimbsAre(all[..n]);
    if Value(all[..n]) == 0 { ZeroForm(all[..n]); }
    if n == 1 && all[0] == 0 {
      assert all[..1] == [0];
      OneLimb(0);
    }
  }

  /** Multiplies by a power of five and shifts. */
  method ScaleBig(n: BigInteger, e5: nat, e2: nat)
    requires n.Valid() && Room(n.Val() * Pow(5, e5), e2)
    modifies n, n.digits
    ensures n.Valid() && ShiftsTo(old(n.Val()) * Pow(5, e5), e2, n.Val())
  {
    hide Value, W, Pow, Normal, ShiftExact, ShiftResult, LimbsOf;
    ghost var v := n.Val() * Pow(5, e5);
    n.MultiplyPow5(e5);
    ghost var all := n.digits[..];
    assert n.Limbs() == all[..n.count];
    HeldBy(all, n.count, e2);
    ghost var written := n.ShiftLeft(e2);
    assert Holds(all, v, e2) && n.Val() == AfterShift(all, v, e2);
  }

  method NewScaled(u: Limb, e5: nat, e2: nat) returns (n: BigInteger)
    requires Room(u * Pow(5, e5), e2)
    ensures n.Valid() && fresh(n) && fresh(n.digits) && ShiftsTo(u * Pow(5, e5), e2, n.Val())
  {
    hide Room, ShiftsTo, Value;
    OneLimb(u);
    n := new BigInteger(u);
    ScaleBig(n, e5, e2);
  }

  /** What the subtraction gives for the distance of two numbers. */
  function Delta(x: nat, y: nat): nat
    requires x != y
  {
    MoreLimbs(x, y);
    if x < y then y - x + TooMuch(LimbsOf(y), LimbsOf(x)) else x - y + TooMuch(LimbsOf(x), LimbsOf(y))
  }

  lemma MoreLimbs(x: nat, y: nat)
    ensures x < y ==> |LimbsOf(x)| <= |LimbsOf(y)|
    ensures y < x ==> |LimbsOf(y)| <= |LimbsOf(x)|
  {
    LimbsOfIs(x);
    LimbsOfIs(y);
    if x < y { NoMoreLimbs(LimbsOf(x), LimbsOf(y)); }
    if y < x { NoMoreLimbs(LimbsOf(y), LimbsOf(x)); }
  }

  /** Whether the subtraction of the smaller of two numbers loses no borrow. */
  ghost predicate SubtractsExactly(x: nat, y: nat) {
    if x < y then !BorrowLost(LimbsOf(y), LimbsOf(x)) else !BorrowLost(LimbsOf(x), LimbsOf(y))
  }

  /** The distance of two different numbers, as it is computed. */
  method Distance(x: BigInteger, y: BigInteger) returns (delta: BigInteger)
    requires x.Valid() && y.Valid() && x.Val() != y.Val()
    ensures delta.Valid() && fresh(delta) && fresh(delta.digits)
    ensures delta.Val() == Delta(x.Val(), y.Val())
    ensures Delta(x.Val(), y.Val()) == Gap(x.Val(), y.Val()) <==> SubtractsExactly(x.Val(), y.Val())
  {
    hide Value, Normal, BorrowLost, LimbsOf, TooMuch;
    delta := new BigInteger(0);
    LimbsAre(x.Limbs());
    LimbsAre(y.Limbs());
    var less := x.Difference(y, delta);
  }

  function Gap(x: nat, y: nat): nat {
    if x < y then y - x else x - y
  }

  /** What the comparison may report: the sign of the computed distance of the two scaled
      numbers, less half the last place, scaled. */
  ghost predicate Judged(r: int, b: nat, bExp: int, d: nat, dExp: int) {
    JudgedAt(r, b, d, ExponentsOf(bExp, dExp))
  }

  ghost predicate JudgedAt(r: int, b: nat, d: nat, e: Exponents)
    requires Natural(e)
  {
    exists x: nat, y: nat, h: nat :: MayGive(b, d, e, x, y, h) && x != y && r == Sign(Delta(x, y) - h)
  }

  /** The three scaled numbers, as they may be computed. */
  ghost predicate MayGive(b: nat, d: nat, e: Exponents, x: nat, y: nat, h: nat)
    requires Natural(e)
  {
    ScalesTo(d, e.d5, e.d2, x) && ScalesTo(b, e.b5, e.b2, y) && ScalesTo(1, e.h5, e.h2, h)
  }

  ghost predicate ScalesTo(n: nat, e5: nat, e2: nat, x: nat) {
    ShiftsTo(n * Pow(5, e5), e2, x)
  }

  ghost predicate RoomFor(n: nat, e5: nat, e2: nat) {
    Room(n * Pow(5, e5), e2)
  }

  /** There is room for the three numbers, and the two that are subtracted differ. */
  ghost predicate Comparable(b: nat, bExp: int, d: nat, dExp: int) {
    ComparableAt(b, d, ExponentsOf(bExp, dExp))
  }

  ghost predicate ComparableAt(b: nat, d: nat, e: Exponents)
    requires Natural(e)
  {
    && RoomFor(d, e.d5, e.d2) && RoomFor(b, e.b5, e.b2) && RoomFor(1, e.h5, e.h2)
    && forall x: nat, y: nat, h: nat :: MayGive(b, d, e, x, y, h) ==> x != y
  }

  /** Compares the distance between the decimal `d * 10^dExp` and the double `bInt * 2^bExp`
      with half the last place of the double. */
  method CheckWithinHalfULP(bInt: Limb, bExp: int, d: BigInteger, dExp: int) returns (r: int)
    requires d.Valid() && Comparable(bInt, bExp, d.Val(), dExp)
    ensures Judged(r, bInt, bExp, d.Val(), dExp)
  {
    hide Value, W, Pow, Normal, ShiftsTo, Room, ExponentsOf, Common, Delta, SubtractsExactly, Gap;
    ghost var k2, k5;
    var e;
    e, k2, k5 := Bookkeeping(bExp, dExp);
    var dS := new BigInteger(0);
    dS.CopyFrom(d);
    ScaleBig(dS, e.d5, e.d2);
    var bS := NewScaled(bInt, e.b5, e.b2);
    var hS := NewScaled(1, e.h5, e.h2);
    assert MayGive(bInt, d.Val(), e, dS.Val(), bS.Val(), hS.Val());
    var delta := Distance(dS, bS);
    r := delta.Compare(hS);
  }

  // ---------------------------------------------------------------- when it is right

  /** Without shifts of several limbs by whole limbs: the comparison is right if and only if no
      borrow is lost, or the decimal is beyond half a unit anyway, or what the lost borrows
      add does not reach half a unit. */
  lemma RightExactly(r: int, b: Limb, bExp: int, d: nat, dExp: int)
    requires Judged(r, b, bExp, d, dExp)
    requires var e := ExponentsOf(bExp, dExp);
      SafeShift(d * Pow(5, e.d5), e.d2) && SafeShift(b * Pow(5, e.b5), e.b2) && SafeShift(1 * Pow(5, e.h5), e.h2)
    ensures
      var e := ExponentsOf(bExp, dExp);
      var x, y, h := Scaled(d, e.d5, e.d2), Scaled(b, e.b5, e.b2), Scaled(1, e.h5, e.h2);
      x != y && (r == HalfUlpSign(b, bExp, d, dExp) <==> SubtractsExactly(x, y) || Gap(x, y) > h || Delta(x, y) < h)
  {
    var e := ExponentsOf(bExp, dExp);
    hide Value, W, Pow, Normal, ShiftsTo, Room, ExponentsOf, SafeShift, HalfUlpSign, LimbsOf, TooMuch, BorrowLost, MayGive;
    var x: nat, y: nat, h: nat := JudgedBy(r, b, d, e);
    ScaledSafely(d, e.d5, e.d2, x, b, e.b5, e.b2, y, e.h5, e.h2, h, e);
    DeltaIs(x, y);
    RatioIs(b, bExp, d, dExp);
  }

  lemma ScaledSafely(d: nat, d5: nat, d2: nat, x: nat, b: nat, b5: nat, b2: nat, y: nat, h5: nat, h2: nat, h: nat, e: Exponents)
    requires e == Exponents(d2, d5, b2, b5, h2, h5) && MayGive(b, d, e, x, y, h)
    requires SafeShift(d * Pow(5, d5), d2) && SafeShift(b * Pow(5, b5), b2) && SafeShift(1 * Pow(5, h5), h2)
    ensures x == Scaled(d, d5, d2) && y == Scaled(b, b5, b2) && h == Scaled(1, h5, h2)
  {
    hide Pow, ShiftsTo, SafeShift;
    SafeShiftsTo(d * Pow(5, d5), d2, x);
    SafeShiftsTo(b * Pow(5, b5), b2, y);
    SafeShiftsTo(1 * Pow(5, h5), h2, h);
  }

  /** Any other shift is right if and only if the limbs left in place are the right ones. */
  lemma ShiftedExactly(all: seq<Limb>, v: nat, shift: nat)
    requires Holds(all, v, shift)
    ensures AfterShift(all, v, shift) == v * Pow(2, shift) <==> ShiftExact(all, |LimbsOf(v)|, shift)
  {
    hide W, Value, Pow, Normal, ShiftResult, LimbsOf;
    LimbsOfIs(v);
    var n := |LimbsOf(v)|;
    if shift == 0 {
      PowZero(v, 2);
    } else if v == 0 {
      Mono(0, 1, Pow(2, shift));
      ZeroForm(LimbsOf(v));
      assert all[0] == all[..n][0];
    } else {
      ShiftResultExact(all, n, shift);
    }
  }

  lemma DeltaIs(x: nat, y: nat)
    requires x != y
    ensures Delta(x, y) >= Gap(x, y)
    ensures Delta(x, y) == Gap(x, y) <==> SubtractsExactly(x, y)
  {
    hide Value, W, Normal, LimbsOf;
    LimbsOfIs(x);
    LimbsOfIs(y);
    MoreLimbs(x, y);
    if x < y { SurplusIs(LimbsOf(y), LimbsOf(x)); } else { SurplusIs(LimbsOf(x), LimbsOf(y)); }
  }

  lemma RatioIs(b: nat, bExp: int, d: nat, dExp: int)
    ensures var e := ExponentsOf(bExp, dExp);
      HalfUlpSign(b, bExp, d, dExp) ==
        Sign(Gap(Scaled(d, e.d5, e.d2), Scaled(b, e.b5, e.b2)) - Scaled(1, e.h5, e.h2))
  {
    var e := ExponentsOf(bExp, dExp);
    RatioKept(b, bExp, d, dExp, e, e.d2 - dExp, e.d5 - dExp);
  }

  // ---------------------------------------------------------------- when it is wrong

  /** The limbs of numbers below 2^128. */
  lemma TwoLimbs(lo: Limb, hi: Limb)
    requires hi > 0
    ensures LimbsOf(lo + hi * B) == [lo, hi]
  {
  }

  /** A number of two limbs shifted by one limb: the lower limb is replaced by the higher one. */
  lemma TwoLimbsShifted(lo: Limb, hi: Limb, x: nat)
    requires hi > 0 && ShiftsTo(lo + hi * B, 64, x)
    ensures x == (hi + hi * B) * B
  {
    hide LimbsOf, Value, W, ShiftResult, Pow;
    var v := lo + hi * B;
    TwoLimbs(lo, hi);
    var all :| Holds(all, v, 64) && x == AfterShift(all, v, 64);
    assert all[..2] == [lo, hi];
    assert all[1] == all[..2][1];
    assert all[1..2] + [all[1]] == [hi, hi];
    ShiftResultIs(all, 2, 64);
    TwoLimbsValue(hi, hi);
  }

  lemma TwoLimbsValue(lo: Limb, hi: Limb)
    ensures Value([lo, hi]) == lo + hi * B && W(1) == B && W(2) == B * B
  {
    OneLimb(lo);
    assert [lo, hi][..1] == [lo];
    assert W(1) == B * W(0);
  }

  const FIVE_40: nat := 9094947017729282379150390625

  lemma FiveTo40()
    ensures Pow(5, 40) == FIVE_40 && Pow(5, 0) == 1 && Pow(2, 1) == 2 && Pow(2, 0) == 1 && Pow(2, 64) == B
  {
    PowersOfFive();
    PowersOfTwo();
    PowAdd(5, 27, 13);
  }

  /** 4440892098500626654732592 * 10^-40 and 2^-51, as 2^52 * 2^-103: a shift by 64 bits, of
      two limbs. The decimal is within half a unit of the double, and is reported not to be. */
  lemma WholeLimbMisjudged(r: int)
    requires Judged(r, HIDDEN, -103, SHIFTED, -40)
    ensures r == 1 && HalfUlpSign(HIDDEN, -103, SHIFTED, -40) == -1
  {
    hide HalfUlpSign, ExponentsOf, JudgedAt;
    WholeLimbExponents();
    WholeLimbReported(r, ExponentsOf(-103, -40));
    WholeLimbRight();
  }

  lemma WholeLimbExponents()
    ensures ExponentsOf(-103, -40) == Exponents(64, 0, 1, 40, 0, 40)
  {
  }

  lemma WholeLimbRight()
    ensures HalfUlpSign(HIDDEN, -103, SHIFTED, -40) == -1
  {
    hide HalfUlpSign, ExponentsOf, Pow;
    FiveTo40();
    WholeLimbExponents();
    RatioIs(HIDDEN, -103, SHIFTED, -40);
  }

  lemma WholeLimbReported(r: int, e: Exponents)
    requires e == Exponents(64, 0, 1, 40, 0, 40) && JudgedAt(r, HIDDEN, SHIFTED, e)
    ensures r == 1
  {
    hide LimbsOf, TooMuch, Delta, JudgedAt, MayGive;
    var x: nat, y: nat, h: nat := JudgedBy(r, HIDDEN, SHIFTED, e);
    WholeLimbNumbers(e, x, y, h);
    DeltaBelow(x, y);
  }

  lemma WholeLimbNumbers(e: Exponents, x: nat, y: nat, h: nat)
    requires e == Exponents(64, 0, 1, 40, 0, 40) && MayGive(HIDDEN, SHIFTED, e, x, y, h)
    ensures x == (240741 + 240741 * B) * B && y == 2 * HIDDEN * FIVE_40 && h == FIVE_40
  {
    hide Pow, ShiftsTo;
    FiveTo40();
    TwoLimbsShifted(4483451715489145136, 240741, x);
    SafeShiftsTo(HIDDEN * FIVE_40, 1, y);
    SafeShiftsTo(FIVE_40, 0, h);
  }

  const HIDDEN: Limb := 0x10_0000_0000_0000

  const SHIFTED: nat := 4440892098500626654732592

  lemma JudgedBy(r: int, b: nat, d: nat, e: Exponents) returns (x: nat, y: nat, h: nat)
    requires Natural(e) && JudgedAt(r, b, d, e)
    ensures MayGive(b, d, e, x, y, h) && x != y && r == Sign(Delta(x, y) - h)
  {
    hide MayGive, Delta;
    x, y, h :| MayGive(b, d, e, x, y, h) && x != y && r == Sign(Delta(x, y) - h);
  }

  lemma DeltaBelow(x: nat, y: nat)
    requires x < y
    ensures |LimbsOf(x)| <= |LimbsOf(y)| && Delta(x, y) == y - x + TooMuch(LimbsOf(y), LimbsOf(x))
  {
    hide LimbsOf, TooMuch;
    MoreLimbs(x, y);
  }

  lemma DeltaAbove(x: nat, y: nat)
    requires y < x
    ensures |LimbsOf(y)| <= |LimbsOf(x)| && Delta(x, y) == x - y + TooMuch(LimbsOf(x), LimbsOf(y))
  {
    hide LimbsOf, TooMuch;
    MoreLimbs(x, y);
  }

  const FIVE_186: nat := 10195788231247694572984834545713355555783069153232760230872869461671442569683572230035775198209169190022294060327112674713134765625

  const ALL_ONES: Limb := 6412742366823986

  const BORROWED: nat :=
    66952154269375987596713068596284587248632833753199322421727863751499981405824293853917272164897136511874098374393893318381885751305633541366859728895

  /** The decimal of those 149 digits * 10^-186 and 6412742366823986 * 2^-176: a borrow into a
      limb of all ones, two limbs up, is lost. The decimal is within half a unit of the double,
      and is reported not to be. */
  lemma BorrowMisjudged(r: int)
    requires Judged(r, ALL_ONES, -176, BORROWED, -186)
    ensures r == 1 && HalfUlpSign(ALL_ONES, -176, BORROWED, -186) == -1
  {
    hide HalfUlpSign, ExponentsOf, JudgedAt;
    BorrowExponents();
    BorrowReported(r, ExponentsOf(-176, -186));
    BorrowRight();
  }

  lemma BorrowExponents()
    ensures ExponentsOf(-176, -186) == Exponents(0, 0, 10, 186, 9, 186)
  {
  }

  lemma FiveTo186()
    ensures Pow(5, 186) == FIVE_186 && Pow(5, 0) == 1 && Pow(2, 0) == 1 && Pow(2, 9) == 0x200 && Pow(2, 10) == 0x400
  {
    PowersOfFive();
    SmallPowersOfTwo();
    PowAdd(5, 27, 27);
    PowAdd(5, 54, 27);
    PowAdd(5, 81, 12);
    PowAdd(5, 93, 93);
  }

  lemma BorrowNumbers(e: Exponents, x: nat, y: nat, h: nat)
    requires e == Exponents(0, 0, 10, 186, 9, 186) && MayGive(ALL_ONES, BORROWED, e, x, y, h)
    ensures x == BORROWED && y == ALL_ONES * FIVE_186 * 0x400 && h == FIVE_186 * 0x200
  {
    hide Pow, ShiftsTo;
    FiveTo186();
    SafeShiftsTo(BORROWED, 0, x);
    SafeShiftsTo(ALL_ONES * FIVE_186, 10, y);
    SafeShiftsTo(FIVE_186, 9, h);
  }

  lemma BorrowRight()
    ensures HalfUlpSign(ALL_ONES, -176, BORROWED, -186) == -1
  {
    hide HalfUlpSign, ExponentsOf, Pow;
    FiveTo186();
    BorrowExponents();
    RatioIs(ALL_ONES, -176, BORROWED, -186);
  }

  lemma BorrowReported(r: int, e: Exponents)
    requires e == Exponents(0, 0, 10, 186, 9, 186) && JudgedAt(r, ALL_ONES, BORROWED, e)
    ensures r == 1
  {
    hide LimbsOf, TooMuch, Delta, JudgedAt, MayGive, W;
    var x: nat, y: nat, h: nat := JudgedBy(r, ALL_ONES, BORROWED, e);
    BorrowNumbers(e, x, y, h);
    DeltaAbove(x, y);
    LostTwoUp();
    ThirdWeight();
  }

  /** The three lowest limbs of a number of more. */
  lemma LowLimbs(n: nat, l0: Limb, l1: Limb, l2: Limb, rest: nat)
    requires rest > 0 && n == l0 + (l1 + (l2 + rest * B) * B) * B
    ensures |LimbsOf(n)| > 3 && LimbsOf(n)[..3] == [l0, l1, l2]
  {
    LimbBelow(l2, rest);
    LimbBelow(l1, l2 + rest * B);
    LimbBelow(l0, l1 + (l2 + rest * B) * B);
  }

  lemma LimbBelow(l: Limb, rest: nat)
    requires rest > 0
    ensures LimbsOf(l + rest * B) == [l] + LimbsOf(rest)
  {
    assert (l + rest * B) % B == l && (l + rest * B) / B == rest;
  }

  /** A borrow into the third limb, of all ones, is lost. */
  lemma LostInThird(a: seq<Limb>, b: seq<Limb>)
    requires 3 <= |b| <= |a| && b[2] == B - 1
    requires a[0] < b[0] && a[1] == b[1] < B - 1
    ensures TooMuch(a, b) >= W(3)
  {
    hide W;
    var p := Extended(b, |a|);
    assert p[0] == b[0] && p[1] == b[1] && p[2] == b[2];
    SurplusNext(a, p, 0, 0);
    SurplusNext(a, p, 1, CodeBorrow(a, p, 1));
    SurplusNext(a, p, 2, CodeBorrow(a, p, 2));
    assert Limbwise(a[0], p[0], 0).1 == 1 && Limbwise(a[1], p[1], 1).1 == 1;
    SurplusGrows(a, p, 3, |a|);
  }

  lemma {:induction false} SurplusGrows(a: seq<Limb>, b: seq<Limb>, j: nat, k: nat)
    requires |a| == |b| && j <= k <= |a|
    ensures Surplus(a, b, j) <= Surplus(a, b, k)
    decreases k
  {
    if j < k { SurplusGrows(a, b, j, k - 1); }
  }

  lemma LostTwoUp()
    ensures |LimbsOf(ALL_ONES * FIVE_186 * 0x400)| <= |LimbsOf(BORROWED)|
    ensures TooMuch(LimbsOf(BORROWED), LimbsOf(ALL_ONES * FIVE_186 * 0x400)) >= W(3)
  {
    hide LimbsOf, TooMuch, W;
    var x, y := BORROWED, ALL_ONES * FIVE_186 * 0x400;
    LowLimbs(x, 3611530208893765631, 459036633026690942, 6745081820543115391,
      10666093539943496614292764554174228695742276892858241440861274202975111659593063190150003426);
    LowLimbs(y, 3611530208893765632, 459036633026690942, 18446744073709551615,
      10666093539943495782659983302582291213309910438305732017697849532920111478919217126398279061);
    MoreLimbs(y, x);
    var a, b := LimbsOf(x), LimbsOf(y);
    assert a[0] == a[..3][0] && a[1] == a[..3][1] && b[0] == b[..3][0] && b[1] == b[..3][1] && b[2] == b[..3][2];
    LostInThird(a, b);
  }

  /** Both are calls that the code admits. */
  lemma BothAdmitted()
    ensures Comparable(HIDDEN, -103, SHIFTED, -40) && Comparable(ALL_ONES, -176, BORROWED, -186)
  {
    hide ExponentsOf, Pow, W, MayGive, Room, ScalesTo;
    FiveTo40();
    WholeLimbExponents();
    BorrowExponents();
    TenLimbsRoom(SHIFTED, 64);
    TenLimbsRoom(HIDDEN * FIVE_40, 1);
    TenLimbsRoom(FIVE_40, 0);
    FiveTo186();
    TenLimbsRoom(BORROWED, 0);
    TenLimbsRoom(ALL_ONES * FIVE_186, 10);
    TenLimbsRoom(FIVE_186, 9);
    forall x: nat, y: nat, h: nat | MayGive(HIDDEN, SHIFTED, Exponents(64, 0, 1, 40, 0, 40), x, y, h) ensures x != y {
      WholeLimbNumbers(Exponents(64, 0, 1, 40, 0, 40), x, y, h);
    }
    forall x: nat, y: nat, h: nat | MayGive(ALL_ONES, BORROWED, Exponents(0, 0, 10, 186, 9, 186), x, y, h) ensures x != y {
      BorrowNumbers(Exponents(0, 0, 10, 186, 9, 186), x, y, h);
    }
  }

  lemma TenLimbsRoom(v: nat, shift: nat)
    requires v < 0x10000000000000000000000000000000000000000000000000000000000000000000000000000000000000000000000000000000000000000000000000000000000000000000000000000000000000000 && shift <= 64
    ensures Room(v, shift)
  {
    hide LimbsOf, W;
    TenthWeight();
    WeightGrows(10, CAPACITY);
    LimbsOfIs(v);
    NormalCount(LimbsOf(v), 10);
  }

  lemma TenthWeight()
    ensures W(10) == 0x10000000000000000000000000000000000000000000000000000000000000000000000000000000000000000000000000000000000000000000000000000000000000000000000000000000000000000
  {
    assert W(5) == B * W(4) && W(4) == B * W(3) && W(3) == B * W(2) && W(2) == B * W(1) && W(1) == B;
    assert W(10) == B * W(9) && W(9) == B * W(8) && W(8) == B * W(7) && W(7) == B * W(6) && W(6) == B * W(5);
  }

  lemma ThirdWeight()
    ensures W(3) == B * (B * B)
  {
    TwoLimbsValue(0, 0);
  }
}
