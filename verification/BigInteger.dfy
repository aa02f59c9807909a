/** The big integer of the number code: limbs in a fixed array, changed in place. */
module BigInteger {
  import opened Arith
  import opened BigNatural
  import opened BigShift
  import opened BigDifference
  import opened Bytes
  import opened Numerals

  const CAPACITY: nat := 416

  /** A limb after a move of the limbs at `from` to the places from `to` up to `end`. */
  function Moved(ds: seq<Limb>, to: nat, from: nat, end: nat, j: nat): Limb
    requires from <= to && end <= |ds| && j < |ds|
  {
    if to <= j < end then ds[j - to + from] else ds[j]
  }

  /** When a left shift of the number in the first `n` limbs is exact: unless it is by a whole
      number of limbs, or else if the limbs that are left in place are the right ones. A
      number of a single limb has none of those. */
  predicate ShiftExact(ds: seq<Limb>, n: nat, shift: nat) {
    0 < n <= |ds|
    && (shift == 0 || (n == 1 && ds[0] == 0) || shift % 64 != 0
        || (shift / 64 + n - 1 <= |ds| && ds[shift / 64..shift / 64 + n - 1] == ds[..n - 1]))
  }

  /** The number after a left shift of the one in the first `n` limbs: by a whole number of
      limbs, the limbs below the highest are those that lie that much above them. */
  function ShiftResult(ds: seq<Limb>, n: nat, shift: nat): nat
    requires 0 < n <= |ds| && (shift % 64 == 0 ==> shift / 64 + n - 1 <= |ds|)
  {
    var o := shift / 64;
    if shift == 0 || (n == 1 && ds[0] == 0) || shift % 64 != 0 then Value(ds[..n]) * Pow(2, shift)
    else W(o) * Value(ds[o..o + n - 1] + [ds[n - 1]])
  }

  lemma ShiftResultIs(ds: seq<Limb>, n: nat, shift: nat)
    requires 0 < n <= |ds| && (shift % 64 == 0 ==> shift / 64 + n - 1 <= |ds|) && shift != 0 && !(n == 1 && ds[0] == 0)
    ensures var o := shift / 64;
      ShiftResult(ds, n, shift) ==
        if shift % 64 != 0 then Value(ds[..n]) * Pow(2, shift) else W(o) * Value(ds[o..o + n - 1] + [ds[n - 1]])
  {
  }

  lemma ShiftResultExact(ds: seq<Limb>, n: nat, shift: nat)
    requires 0 < n <= |ds| && (shift % 64 == 0 ==> shift / 64 + n - 1 <= |ds|)
    ensures ShiftResult(ds, n, shift) == Value(ds[..n]) * Pow(2, shift) <==> ShiftExact(ds, n, shift)
  {
    hide Value, W, Pow;
    var o := shift / 64;
    ShiftProduct(Value(ds[..n]), shift);
    if shift != 0 && !(n == 1 && ds[0] == 0) && shift % 64 == 0 {
      var r := ds[o..o + n - 1] + [ds[n - 1]];
      LimbShift(ds[..n], r, o);
      assert r[..n - 1] == ds[o..o + n - 1] && ds[..n][..n - 1] == ds[..n - 1];
    }
  }

  // ---------------------------------------------------------------- the places a shift writes

  predicate AtLeast(a: nat, k: nat) {
    a <= k
  }

  function Span(a: nat, b: nat): set<nat> {
    set k: nat | k < b && AtLeast(a, k)
  }

  /** The places that a shift by `shift > 0` writes, for a number of `n` limbs that is not zero. */
  function ShiftWrites(n: nat, shift: nat): set<nat>
    requires n > 0
  {
    var o := shift / 64;
    Span(0, o) + if shift % 64 == 0 then Span(n - 1 + o, 2 * n - 1 + o) else {n} + Span(o, n + o + 1)
  }

  /** Room for a shift: a limb more than the result has, or, for a whole number of limbs, as many
      above the highest as the number has. */
  predicate Fits(n: nat, shift: nat) {
    if shift % 64 != 0 then n + shift / 64 < CAPACITY else 2 * n - 1 + shift / 64 <= CAPACITY
  }

  /** The room is there exactly when every place written lies within the array. */
  lemma FitsExactly(n: nat, shift: nat)
    requires n > 0
    ensures Fits(n, shift) <==> forall k <- ShiftWrites(n, shift) :: k < CAPACITY
  {
    var o := shift / 64;
    var top: nat := if shift % 64 == 0 then 2 * n - 2 + o else n + o;
    assert top in ShiftWrites(n, shift);
  }

  /** The assertion in the code lets a shift pass that writes outside the array in two cases: a
      partial shift whose result may fill the array, and a shift by whole limbs of a number
      with too many of its own. */
  lemma AssertionTooWeak(n: nat, shift: nat)
    requires n > 0 && n + shift / 64 <= CAPACITY
    ensures (exists k :: k in ShiftWrites(n, shift) && k >= CAPACITY)
       <==> if shift % 64 != 0 then n + shift / 64 == CAPACITY else 2 * n - 1 + shift / 64 > CAPACITY
  {
    FitsExactly(n, shift);
  }

  /** A full array shifted by one bit, and 209 limbs shifted by one limb. */
  lemma WritesOutside()
    ensures CAPACITY + 1 / 64 <= CAPACITY && CAPACITY in ShiftWrites(CAPACITY, 1)
    ensures 209 + 64 / 64 <= CAPACITY && CAPACITY in ShiftWrites(209, 64)
  {
  }

  /** Two limbs, shifted by one limb: the number 2^64 becomes 2^64 + 2^128. */
  lemma WholeLimbShiftFails()
    ensures !ShiftExact([0, 1] + Zeros(CAPACITY - 2), 2, 64)
  {
    var ds: seq<Limb> := [0, 1] + Zeros(CAPACITY - 2);
    assert ds[1..2][0] == 1 && ds[..1][0] == 0;
  }

  /** Single limbs and shifts by other than whole limbs are safe. */
  lemma ShiftSafe(ds: seq<Limb>, n: nat, shift: nat)
    requires 0 < n <= |ds| && (n == 1 || shift % 64 != 0 || shift == 0) && shift / 64 + n <= |ds|
    ensures ShiftExact(ds, n, shift)
  {
    if n == 1 { assert ds[shift / 64..shift / 64] == ds[..0]; }
  }

  lemma ShiftBase(ds: seq<Limb>, shift: nat)
    ensures Value(ds) * Pow(2, 0) == Value(ds)
    ensures Value([0]) * Pow(2, shift) == Value([0]) == 0
  {
    OneLimb(0);
  }

  lemma ShiftProduct(v: nat, shift: nat)
    ensures v * Pow(2, shift) == W(shift / 64) * (Pow(2, shift % 64) * v)
    ensures shift % 64 == 0 ==> v * Pow(2, shift) == W(shift / 64) * v
  {
    ShiftFactor(shift);
    Swap(v, W(shift / 64), Pow(2, shift % 64));
    if shift % 64 == 0 { assert Pow(2, 0) == 1; }
  }

  class BigInteger {
    const digits: array<Limb>
    var count: nat

    ghost predicate Valid()
      reads this, digits
    {
      digits.Length == CAPACITY && 0 < count <= CAPACITY && Normal(digits[..count])
    }

    ghost function Limbs(): seq<Limb>
      requires Valid()
      reads this, digits
    {
      digits[..count]
    }

    ghost function Val(): nat
      requires Valid()
      reads this, digits
    {
      Value(digits[..count])
    }

    constructor (u: Limb)
      ensures Valid() && Limbs() == [u] && fresh(digits)
    {
      digits := new Limb[CAPACITY];
      count := 1;
      new;
      digits[0] := u;
    }

    /** Assignment of a small number. */
    method Assign(u: Limb)
      requires Valid()
      modifies this, digits
      ensures Valid() && Limbs() == [u]
    {
      digits[0] := u;
      count := 1;
    }

    /** A copy of another number. */
    method CopyFrom(rhs: BigInteger)
      requires Valid() && rhs.Valid() && rhs.digits != digits && rhs != this
      modifies this, digits
      ensures Valid() && rhs.Valid() && Limbs() == rhs.Limbs() && rhs.Limbs() == old(rhs.Limbs())
    {
      count := rhs.count;
      for i := 0 to count
        invariant count == rhs.count == old(rhs.count) && digits[..i] == rhs.digits[..i] && rhs.digits[..] == old(rhs.digits[..])
      {
        digits[i] := rhs.digits[i];
      }
    }

    method PushBack(d: Limb)
      requires digits.Length == CAPACITY && 0 < count < CAPACITY && d != 0
      modifies this, digits
      ensures Valid() && Limbs() == old(digits[..count]) + [d]
    {
      digits[count] := d;
      count := count + 1;
    }

    function IsZero(): bool
      requires digits.Length == CAPACITY
      reads this, digits
    {
      count == 1 && digits[0] == 0
    }

    function IsOne(): bool
      requires digits.Length == CAPACITY
      reads this, digits
    {
      count == 1 && digits[0] == 1
    }

    /** Adds `x` to one limb, dropping the carry. */
    method AddToLimb(i: nat, x: Limb) returns (backup: Limb)
      requires digits.Length == CAPACITY && i < count <= CAPACITY
      modifies digits
      ensures backup == old(digits[i]) && digits[i] == if backup + x < B then backup + x else backup + x - B
      ensures digits[..count] == old(digits[..count])[i := digits[i]]
      ensures Value(digits[..count]) + (if digits[i] < backup then W(i + 1) else 0) == old(Value(digits[..count])) + x * W(i)
    {
      hide Value, W;
      AddStep(digits[..count], i, x);
      ghost var ds := digits[..count];
      backup := digits[i];
      digits[i] := (digits[i] + x) % B;
      assert digits[..count] == ds[i := digits[i]];
    }

    /** Adds a small number; the sum must fit. */
    method AddAssign(u: Limb)
      requires Valid() && Val() + u < W(CAPACITY)
      modifies this, digits
      ensures Valid() && Val() == old(Val()) + u
    {
      hide Value, W;
      ghost var total := Val() + u;
      WeightZero(u);
      var backup: Limb := AddToLimb(0, u);
      var i := 0;
      while i < count - 1
        invariant i < count == old(count)
        invariant Value(digits[..count]) + (if digits[i] < backup then W(i + 1) else 0) == total
        invariant i > 0 ==> digits[i] == if backup + 1 < B then backup + 1 else 0
        invariant i < count - 1 ==> digits[count - 1] == old(digits[count - 1])
      {
        if digits[i] >= backup { return; }
        WeightZero(W(i + 1));
        backup := AddToLimb(i + 1, 1);
        i := i + 1;
      }
      if digits[count - 1] < backup {
        CountBelow(count, CAPACITY);
        ValuePush(digits[..count], 1);
        WeightZero(W(count));
        PushBack(1);
      } else {
        assert digits[..count][count - 1] == digits[count - 1];
      }
    }

    // -------------------------------------------------------------- multiplication

    /** `a * b + k` in two limbs, from four products of half limbs; nothing overflows. */
    static method MulAdd64(a: Limb, b: Limb, k: Limb) returns (lo: Limb, hi: Limb)
      ensures lo + hi * B == a * b + k
    {
      var a0, a1, b0, b1 := a % HALF, a / HALF, b % HALF, b / HALF;
      FourProducts(a1, a0, b1, b0, a1 * b0, a0 * b1, a0 * b0);
      ProductFits(a, b, k);
      lo, hi := AddProducts(HalfMul(a0, b0), HalfMul(a0, b1), HalfMul(a1, b0), HalfMul(a1, b1), k);
    }

    /** The sum of the four products, each in its place, and of `k`. */
    static method AddProducts(x0: HalfSquare, y1: HalfSquare, x2: HalfSquare, y3: HalfSquare, k: Limb) returns (lo: Limb, hi: Limb)
      requires x0 + (y1 + x2) * HALF + y3 * B + k < B * B
      ensures lo + hi * B == x0 + (y1 + x2) * HALF + y3 * B + k
    {
      var x1: Limb, x3: Limb := y1, y3;
      x1 := x1 + x0 / HALF;
      x1 := (x1 + x2) % B;
      if x1 < x2 { x3 := x3 + HALF; }
      lo := x1 * HALF % B + x0 % HALF;
      var top := x3 + x1 / HALF;
      assert lo + top * B == x0 + (y1 + x2) * HALF + y3 * B;
      lo, hi := AddLow(lo, top, k);
    }

    /** Adds to the low limb and carries into the high one. */
    static method AddLow(lo: Limb, hi: nat, k: Limb) returns (lo': Limb, hi': Limb)
      requires lo + hi * B + k < B * B
      ensures lo' + hi' * B == lo + hi * B + k
    {
      assert hi < B;
      lo' := (lo + k) % B;
      hi' := if lo' < k then hi + 1 else hi;
    }

    /** One limb times a half limb, plus a half limb: a limb and a half limb. */
    static method MulAdd32(digit: Limb, u: nat, k: nat) returns (lo: Limb, hi: nat)
      requires u < HALF && k < HALF
      ensures lo + hi * B == digit * u + k && hi < HALF
    {
      var c, d := digit / HALF, digit % HALF;
      TwoProducts(c, d, u);
      lo, hi := AddHalves(HalfMul(c, u), HalfMul(d, u), k);
    }

    static method AddHalves(uc: HalfSquare, ud: HalfSquare, k: nat) returns (lo: Limb, hi: nat)
      requires k < HALF
      ensures lo + hi * B == uc * HALF + ud + k && hi < HALF
    {
      var p0: Limb := ud + k;
      var p1: Limb := uc + p0 / HALF;
      lo := p0 % HALF + p1 * HALF % B;
      hi := p1 / HALF;
    }

    /** One limb of a multiplication, with the carry from the limb below. */
    method MulDigit(i: nat, u: Limb, k: Limb, half: bool, ghost ds: seq<Limb>) returns (hi: Limb)
      requires digits.Length == CAPACITY && i < |ds| <= CAPACITY && digits[i] == ds[i]
      requires half ==> u < HALF && k < HALF
      requires Value(digits[..i]) + k * W(i) == u * Value(ds[..i])
      modifies digits
      ensures Value(digits[..i + 1]) + hi * W(i + 1) == u * Value(ds[..i + 1])
      ensures forall j :: i < j < CAPACITY ==> digits[j] == old(digits[j])
      ensures half ==> hi < HALF
    {
      hide Value, W;
      ghost var es := digits[..i];
      var lo: Limb;
      if half { lo, hi := MulAdd32(digits[i], u, k); } else { lo, hi := MulAdd64(digits[i], u, k); }
      MulStep(ds, es, i, u, k, lo, hi);
      digits[i] := lo;
      assert digits[..i + 1] == es + [lo];
    }

    /** Multiplication in place: limb by limb with a carry, a half limb in the 32-bit form. A
        product is longer by at most a limb, and its highest limb is not zero. */
    method MulLimbs(u: Limb, half: bool)
      requires Valid() && 1 < u && Val() * u < W(CAPACITY) && (half ==> u < HALF)
      modifies this, digits
      ensures Valid() && Val() == old(Val()) * u
    {
      hide Value, W;
      ghost var ds := Limbs();
      var k: Limb := 0;
      MulStart(ds, u);
      for i := 0 to count
        invariant count == old(count) == |ds| && forall j :: i <= j < count ==> digits[j] == ds[j]
        invariant Value(digits[..i]) + k * W(i) == u * Value(ds[..i])
        invariant half ==> k < HALF
      {
        k := MulDigit(i, u, k, half, ds);
      }
      assert ds[..count] == ds;
      MulEnd(ds, digits[..count], u, k);
      if k > 0 {
        ValuePush(digits[..count], k);
        PushBack(k);
      }
    }

    method MulAssign(u: Limb, half: bool)
      requires Valid() && Val() * u < W(CAPACITY) && (half ==> u < HALF)
      modifies this, digits
      ensures Valid() && Val() == old(Val()) * u
    {
      hide Value, W, Normal;
      OneLimb(u);
      if u == 0 {
        Assign(0);
      } else if u == 1 {
      } else if IsOne() {
        assert Limbs() == [1];
        OneLimb(1);
        Assign(u);
      } else {
        MulLimbs(u, half);
      }
    }

    // -------------------------------------------------------------- shifts

    /** `memmove` within the array: the limbs that were at `from` are now at `to`. */
    method Move(to: nat, from: nat, n: nat) returns (ghost written: set<nat>)
      requires from <= to && to + n <= digits.Length
      modifies digits
      ensures forall j :: 0 <= j < digits.Length ==> digits[j] == Moved(old(digits[..]), to, from, to + n, j)
      ensures written == Span(to, to + n)
    {
      ghost var ds := digits[..];
      var k: nat := n;
      written := {};
      while k > 0
        invariant k <= n
        invariant forall j :: 0 <= j < digits.Length ==> digits[j] == Moved(ds, to + k, from + k, to + n, j)
        invariant written == Span(to + k, to + n)
      {
        k := k - 1;
        written := written + {to + k};
        assert digits[from + k] == ds[from + k];
        digits[to + k] := digits[from + k];
      }
    }

    /** Sets the lowest limbs to zero. */
    method Clear(n: nat) returns (ghost written: set<nat>)
      requires n <= digits.Length
      modifies digits
      ensures written == Span(0, n)
      ensures forall j :: 0 <= j < digits.Length ==> digits[j] == if j < n then 0 else old(digits[j])
    {
      written := {};
      for i := 0 to n
        invariant forall j :: 0 <= j < digits.Length ==> digits[j] == if j < i then 0 else old(digits[j])
        invariant written == Span(0, i)
      {
        written := written + {i};
        digits[i] := 0;
      }
    }

    /** A shift by whole limbs. It moves the limbs from the highest one on, not from the
        lowest, so the limbs below the highest are those that happen to lie `offset` places
        above them. */
    method ShiftByLimbs(offset: nat) returns (ghost written: set<nat>)
      requires Valid() && Limbs() != [0] && offset > 0 && 2 * count - 1 + offset <= CAPACITY
      modifies this, digits
      ensures Valid()
      ensures Val() == W(offset) * Value(old(digits[offset..offset + count - 1]) + [old(digits[count - 1])])
      ensures written == Span(0, offset) + Span(old(count) - 1 + offset, 2 * old(count) - 1 + offset)
    {
      hide Value, W;
      ghost var ds, n := digits[..], count;
      ghost var r := ds[offset..offset + n - 1] + [ds[n - 1]];
      written := Move(count - 1 + offset, count - 1, count);
      count := count + offset;
      ghost var cleared := Clear(offset);
      written := written + cleared;
      assert digits[..count] == Zeros(offset) + r;
      ZerosBelow(offset, r);
      assert digits[..count][count - 1] == ds[n - 1] == ds[..n][n - 1];
    }

    /** Each limb from the one at its place and the one below it, from the highest down. */
    method MixLimbs(offset: nat, p: nat, q: nat, ghost ds: seq<Limb>) returns (ghost written: set<nat>)
      requires digits.Length == CAPACITY && 0 < |ds| == count && count + offset < CAPACITY && Split(p, q)
      requires digits[..count] == ds && digits[count] == 0
      modifies digits
      ensures forall j :: offset <= j <= count + offset ==> digits[j] == Shifted(ds, p, q)[j - offset]
      ensures written == Span(offset, count + offset + 1)
    {
      hide Split, Mixed, Shifted, At;
      ghost var r := Shifted(ds, p, q);
      ShiftedIs(ds, p, q, count, digits[count], digits[count - 1]);
      var i: nat := count;
      written := {};
      while i > 0
        invariant i <= count && written == Span(offset + i + 1, count + offset + 1)
        invariant forall j :: 0 <= j < |ds| && j <= i ==> digits[j] == ds[j]
        invariant i == count ==> digits[i] == 0
        invariant forall j :: i + offset < j <= count + offset ==> digits[j] == r[j - offset]
      {
        ShiftedIs(ds, p, q, i, digits[i], digits[i - 1]);
        digits[i + offset] := Mixed(digits[i], digits[i - 1], p, q);
        written := written + {i + offset};
        i := i - 1;
      }
      ShiftedIs(ds, p, q, 0, digits[0], 0);
      digits[offset] := Mixed(digits[0], 0, p, q);
      written := written + {offset};
    }

    /** A shift by a part of a limb and by whole limbs. */
    method ShiftByBits(offset: nat, p: nat, q: nat) returns (ghost written: set<nat>)
      requires Valid() && Limbs() != [0] && Split(p, q) && count + offset < CAPACITY
      modifies this, digits
      ensures Valid() && Val() == W(offset) * (p * old(Val()))
      ensures written == Span(0, offset) + ({old(count)} + Span(offset, old(count) + offset + 1))
    {
      hide Value, W, Split, Shifted, Normal;
      ghost var ds := Limbs();
      ghost var r := Shifted(ds, p, q);
      digits[count] := 0;
      ghost var mixed := MixLimbs(offset, p, q, ds);
      count := count + offset;
      if digits[count] != 0 { count := count + 1; }
      ghost var cleared := Clear(offset);
      written := cleared + ({|ds|} + mixed);
      assert digits[..count] == Zeros(offset) + Trimmed(r);
      ShiftNormal(ds, p, q, offset);
      ZerosBelow(offset, Trimmed(r));
      TrimmedValue(r);
      ShiftedValue(ds, p, q);
    }

    /** A left shift: what it gives, and the places it writes. It multiplies by the power of two
        if and only if `ShiftExact` holds. */
    method ShiftLeft(shift: nat) returns (ghost written: set<nat>)
      requires Valid() && (shift == 0 || IsZero() || Fits(count, shift))
      modifies this, digits
      ensures Valid()
      ensures shift == 0 || old(IsZero()) || (shift % 64 == 0 ==> shift / 64 + old(count) - 1 <= CAPACITY)
      ensures Val() == if shift == 0 || old(IsZero()) then old(Val()) else ShiftResult(old(digits[..]), old(count), shift)
      ensures Val() == old(Val()) * Pow(2, shift) <==> old(ShiftExact(digits[..], count, shift))
      ensures written == if shift == 0 || old(IsZero()) then {} else ShiftWrites(old(count), shift)
    {
      hide Value, W, Pow, Split, Normal, Span, ShiftResult;
      ShiftBase(Limbs(), shift);
      assert digits[..][..count] == Limbs();
      if IsZero() || shift == 0 {
        assert IsZero() ==> Limbs() == [0];
        return {};
      }
      ShiftResultExact(digits[..], count, shift);
      ShiftResultIs(digits[..], count, shift);
      ShiftFactor(shift);
      var offset, interShift := shift / 64, shift % 64;
      ShiftProduct(Val(), shift);
      assert Limbs() != [0] by { assert Limbs()[0] == digits[0]; }
      if interShift == 0 {
        assert digits[..][offset..offset + count - 1] == digits[offset..offset + count - 1];
        written := ShiftByLimbs(offset);
      } else {
        assert digits[..][..count] == digits[..count];
        written := ShiftByBits(offset, Pow(2, interShift), Pow(2, 64 - interShift));
      }
    }

    // -------------------------------------------------------------- powers of five

    /** Multiplies by as many copies of `5^step` as fit into `exp`. */
    method MultiplyPow5Steps(exp: nat, step: nat, factor: Limb, half: bool) returns (rest: nat)
      requires Valid() && step > 0 && factor == Pow(5, step) && (half ==> factor < HALF)
      requires Val() * Pow(5, exp) < W(CAPACITY)
      modifies this, digits
      ensures Valid() && rest < step && rest <= exp && Val() * Pow(5, rest) == old(Val()) * Pow(5, exp)
    {
      hide Value, W, Pow, Normal;
      rest := exp;
      while rest >= step
        invariant Valid() && rest <= exp && Val() * Pow(5, rest) == old(Val()) * Pow(5, exp)
      {
        SplitPow(Val(), 5, step, rest);
        MulAssign(factor, half);
        rest := rest - step;
      }
    }

    /** Multiplication by a power of five, in steps that fit a limb or half a limb. */
    method MultiplyPow5(exp: nat)
      requires Valid() && Val() * Pow(5, exp) < W(CAPACITY)
      modifies this, digits
      ensures Valid() && Val() == old(Val()) * Pow(5, exp)
    {
      hide Value, W, Pow, Normal;
      PowersOfFive();
      PowZero(Val(), 5);
      if exp == 0 { return; }
      var rest := MultiplyPow5Steps(exp, 27, 0x6765_C793_FA10_079D, false);
      rest := MultiplyPow5Steps(rest, 13, 1220703125, true);
      PowZero(Val(), 5);
      if rest > 0 { MulAssign(POW5[rest - 1], true); }
    }

    // -------------------------------------------------------------- comparison

    /** The sign of the difference. */
    method Compare(rhs: BigInteger) returns (r: int)
      requires Valid() && rhs.Valid()
      ensures r == Sign(Val() - rhs.Val())
    {
      ghost var a, b := Limbs(), rhs.Limbs();
      hide Value, Normal;
      if count != rhs.count {
        if count < rhs.count { FewerLimbs(a, b); } else { FewerLimbs(b, a); }
        return if count < rhs.count then -1 else 1;
      }
      var i: nat := count;
      while i > 0
        invariant i <= count && a[i..] == b[i..]
      {
        i := i - 1;
        if digits[i] != rhs.digits[i] {
          assert a[i] == digits[i] && b[i] == rhs.digits[i];
          if digits[i] < rhs.digits[i] { HigherDecides(a, b, i); } else { HigherDecides(b, a, i); }
          return if digits[i] < rhs.digits[i] then -1 else 1;
        }
        assert a[i..] == [a[i]] + a[i + 1..] && b[i..] == [b[i]] + b[i + 1..];
      }
      assert a[0..] == a && b[0..] == b;
      r := 0;
    }

    // -------------------------------------------------------------- subtraction

    /** The absolute difference, and what lost borrows add to it: nothing if and only if no borrow
        reaches a limb of the smaller number that is all ones. */
    method Difference(rhs: BigInteger, out: BigInteger) returns (less: bool)
      requires Valid() && rhs.Valid() && out.Valid() && Val() != rhs.Val()
      requires out != this && out != rhs && out.digits != digits && out.digits != rhs.digits
      modifies out, out.digits
      ensures less <==> Val() < rhs.Val()
      ensures out.Valid() && Valid() && rhs.Valid() && Limbs() == old(Limbs()) && rhs.Limbs() == old(rhs.Limbs())
      ensures
        var (a, b) := if less then (rhs.Limbs(), Limbs()) else (Limbs(), rhs.Limbs());
        |b| <= |a| && out.Val() == Value(a) - Value(b) + TooMuch(a, b)
        && (TooMuch(a, b) == 0 <==> !BorrowLost(a, b))
    {
      hide Value, Normal, BorrowLost, TooMuch;
      var cmp := Compare(rhs);
      less := cmp < 0;
      if less { rhs.Subtract(this, out); } else { Subtract(rhs, out); }
    }

    /** One limb of a subtraction: the limb and the borrow from it. */
    method SubtractLimb(i: nat, b: BigInteger, borrow: Limb, out: BigInteger) returns (d: Limb, next: Limb)
      requires digits.Length == CAPACITY && b.digits.Length == CAPACITY && out.digits.Length == CAPACITY
      requires i < count <= CAPACITY && b.count <= count && borrow <= 1
      requires out != this && out != b && out.digits != digits && out.digits != b.digits
      modifies out, out.digits
      ensures (d, next) == Limbwise(digits[i], Extended(b.digits[..b.count], count)[i], borrow)
      ensures out.digits[..i + 1] == old(out.digits[..i]) + [d]
      ensures out.count == if d != 0 then i + 1 else old(out.count)
    {
      d := (digits[i] - borrow) % B;
      if i < b.count { d := (d - b.digits[i]) % B; }
      ExtendedLimb(b.digits[..b.count], count, i);
      LimbwiseIs(digits[i], Extended(b.digits[..b.count], count)[i], borrow, d);
      next := if d > digits[i] then 1 else 0;
      out.digits[i] := d;
      if d != 0 { out.count := i + 1; }
    }

    /** Subtracts a smaller number limb by limb. */
    method Subtract(b: BigInteger, out: BigInteger)
      requires Valid() && b.Valid() && out.Valid() && b.Val() < Val()
      requires out != this && out != b && out.digits != digits && out.digits != b.digits
      modifies out, out.digits
      ensures out.Valid() && Valid() && b.Valid() && Limbs() == old(Limbs()) && b.Limbs() == old(b.Limbs())
      ensures b.count <= count && out.Val() == Val() - b.Val() + TooMuch(Limbs(), b.Limbs())
      ensures TooMuch(Limbs(), b.Limbs()) == 0 <==> !BorrowLost(Limbs(), b.Limbs())
    {
      hide Value, Normal, Partial, Limbwise, Extended, BorrowLost, AllZero, TopOf, Surplus;
      ghost var va, vb := Limbs(), b.Limbs();
      NoMoreLimbs(vb, va);
      ghost var pb := Extended(vb, |va|);
      ExtendedValue(vb, |va|);
      PartialStart(va, pb);
      ghost var ds: seq<Limb> := [];
      TopStart();
      var borrow: Limb := 0;
      for i := 0 to count
        invariant out.digits.Length == CAPACITY && out.digits[..i] == ds && |ds| == i && borrow <= 1
        invariant Partial(va, pb, ds, borrow) && (AllZero(ds) || TopOf(ds, out.count))
      {
        PartialStep(va, pb, ds, borrow);
        ghost var c := out.count;
        var d: Limb, next: Limb := SubtractLimb(i, b, borrow, out);
        TopPush(ds, d, c);
        borrow := next;
        ds := ds + [d];
      }
      PartialEnd(va, pb, ds, borrow);
      BorrowLostIs(va, vb);
      TopIs(ds, out.count);
      assert out.digits[..out.count] == ds[..out.count];
    }
  }

  const POW5: seq<Limb> := [5, 25, 125, 625, 3125, 15625, 78125, 390625, 1953125, 9765625, 48828125, 244140625]

  lemma PowersOfFive()
    ensures forall k :: 1 <= k <= 12 ==> Pow(5, k) == POW5[k - 1] < HALF
    ensures Pow(5, 13) == 1220703125 && Pow(5, 27) == 0x6765_C793_FA10_079D
  {
    assert Pow(5, 1) == 5 && Pow(5, 2) == 25 && Pow(5, 3) == 125 && Pow(5, 4) == 625;
    assert Pow(5, 5) == 3125 && Pow(5, 6) == 15625 && Pow(5, 7) == 78125 && Pow(5, 8) == 390625;
    assert Pow(5, 9) == 1953125 && Pow(5, 10) == 9765625 && Pow(5, 11) == 48828125 && Pow(5, 12) == 244140625;
    assert Pow(5, 13) == 1220703125;
    PowAdd(5, 13, 13);
    assert Pow(5, 27) == 5 * Pow(5, 26);
  }

  /** A power split off a product that fits: what is multiplied first fits as well. */
  lemma SplitPow(v: nat, b: nat, step: nat, e: nat)
    requires step <= e && b > 0
    ensures (v * Pow(b, step)) * Pow(b, e - step) == v * Pow(b, e)
    ensures v * Pow(b, step) <= v * Pow(b, e)
  {
    PowAdd(b, step, e - step);
    Assoc(v, Pow(b, step), Pow(b, e - step));
    Mono(1, Pow(b, e - step), v * Pow(b, step));
  }

  /** A product of two half limbs. */
  type HalfSquare = x: int | 0 <= x <= 0xFFFF_FFFE_0000_0001

  function HalfMul(x: nat, y: nat): HalfSquare
    requires x < HALF && y < HALF
  {
    HalvesFit(x, y);
    x * y
  }

  lemma TwoProducts(c: nat, d: nat, u: nat)
    ensures (c * HALF + d) * u == (c * u) * HALF + d * u
  {
    Dist(c * HALF, d, u);
    Assoc(u, c, HALF);
  }

  const HALF: nat := 0x1_0000_0000

  lemma MulStart(ds: seq<Limb>, u: nat)
    ensures Value([]) + 0 * W(0) == u * Value(ds[..0])
  {
  }

  /** The end of a multiplication: what the carry needs, and that no zero limb leads. */
  lemma MulEnd(ds: seq<Limb>, es: seq<Limb>, u: nat, k: Limb)
    requires Normal(ds) && |es| == |ds| && u > 1
    requires Value(es) + k * W(|ds|) == u * Value(ds) && Value(ds) * u < W(CAPACITY)
    ensures k > 0 ==> |ds| < CAPACITY
    ensures k == 0 ==> Normal(es)
  {
    hide Value, W, Normal;
    var n := |ds|;
    if k > 0 {
      Mono(1, k, W(n));
      CountBelow(n, CAPACITY);
    } else {
      Mono(1, u, Value(ds));
      StillNormal(ds, es);
    }
  }

  lemma StillNormal(ds: seq<Limb>, es: seq<Limb>)
    requires Normal(ds) && |es| == |ds| && Value(ds) <= Value(es)
    ensures Normal(es)
  {
    hide Value, W;
    if |ds| > 1 {
      NormalLarge(ds);
      TopNonzero(es);
    }
  }

  lemma WeightZero(u: nat)
    ensures u * W(0) == u && 1 * u == u
  {
  }
}
