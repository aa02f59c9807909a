/** Shifting a big integer left, on values. */
module BigShift {
  import opened Arith
  import opened BigNatural

  /** The factors of a shift by part of a limb, and of the complementary shift. */
  ghost predicate Split(p: nat, q: nat) {
    p > 0 && q > 0 && q * p == B
  }

  /** The bits of a limb that a shift moves to the limb above, and those it keeps. */
  function High(d: Limb, q: nat): nat
    requires q > 0
  {
    d / q
  }

  function Low(d: Limb, q: nat): nat
    requires q > 0
  {
    d % q
  }

  lemma ShiftLimb(d: Limb, p: nat, q: nat)
    requires Split(p, q)
    ensures d * p == High(d, q) * B + Low(d, q) * p && High(d, q) < p && Low(d, q) * p <= B - p
    ensures d * p % B == Low(d, q) * p
    ensures High(d, q) == 0 ==> Low(d, q) == d
  {
    var h, l := d / q, d % q;
    assert d == h * q + l;
    Dist(h * q, l, p);
    Assoc(h, q, p);
    Mono(l, q - 1, p);
    DistMinus(q, 1, p);
    Mono(p, h, q);
    assert p * q == B by { Assoc(1, p, q); }
    Divides(d * p, B, h, l * p);
  }

  /** A limb of the shifted number, from the limb at its place and the one below. */
  function Mixed(d: Limb, below: Limb, p: nat, q: nat): (r: Limb)
    requires Split(p, q)
    ensures r == Low(d, q) * p + High(below, q)
  {
    ShiftLimb(d, p, q);
    ShiftLimb(below, p, q);
    d * p % B + below / q
  }

  lemma ZeroHigh(q: nat)
    requires q > 0
    ensures High(0, q) == 0 && Low(0, q) == 0
  {
    Divides(0, q, 0, 0);
  }

  function At(ds: seq<Limb>, i: int): Limb {
    if 0 <= i < |ds| then ds[i] else 0
  }

  /** All limbs of the shifted number; the highest may be zero. */
  function Shifted(ds: seq<Limb>, p: nat, q: nat): (r: seq<Limb>)
    requires Split(p, q)
    ensures |r| == |ds| + 1
  {
    seq(|ds| + 1, i requires 0 <= i <= |ds| => Mixed(At(ds, i), At(ds, i - 1), p, q))
  }

  /** A limb of the shifted number from two limbs of the number. */
  lemma ShiftedIs(ds: seq<Limb>, p: nat, q: nat, i: nat, d: Limb, below: Limb)
    requires Split(p, q) && i <= |ds|
    requires d == (if i < |ds| then ds[i] else 0) && below == if i > 0 then ds[i - 1] else 0
    ensures Shifted(ds, p, q)[i] == Mixed(d, below, p, q)
  {
  }

  lemma ShiftedLimb(ds: seq<Limb>, p: nat, q: nat, i: nat)
    requires Split(p, q) && i < |ds|
    ensures Shifted(ds, p, q)[i] + High(ds[i], q) * B == ds[i] * p + High(At(ds, i - 1), q)
  {
    hide High, Low;
    ShiftLimb(ds[i], p, q);
  }

  lemma {:induction false} ShiftedPrefix(ds: seq<Limb>, p: nat, q: nat, k: nat)
    requires Split(p, q) && k <= |ds|
    ensures Value(Shifted(ds, p, q)[..k]) + High(At(ds, k - 1), q) * W(k) == p * Value(ds[..k])
    decreases k
  {
    hide High, Low, W, Shifted;
    var r := Shifted(ds, p, q);
    if k == 0 {
      ZeroHigh(q);
      assert r[..0] == [] && ds[..0] == [];
    } else {
      hide Value, Split;
      var i := k - 1;
      ShiftedPrefix(ds, p, q, i);
      ShiftedLimb(ds, p, q, i);
      MulStep(ds, r[..i], i, p, High(At(ds, i - 1), q), r[i], High(ds[i], q));
      assert r[..k] == r[..i] + [r[i]];
    }
  }

  /** The shifted limbs are the number times the shift. */
  lemma ShiftedValue(ds: seq<Limb>, p: nat, q: nat)
    requires Split(p, q)
    ensures Value(Shifted(ds, p, q)) == p * Value(ds)
  {
    hide High, Low, W, Value, Shifted, Split, At;
    var n, r := |ds|, Shifted(ds, p, q);
    ShiftedTop(ds, p, q);
    ShiftedPrefix(ds, p, q, n);
    ValuePrefix(r, n);
    assert r[..n + 1] == r && ds[..n] == ds;
  }

  lemma ShiftedTop(ds: seq<Limb>, p: nat, q: nat)
    requires Split(p, q)
    ensures Shifted(ds, p, q)[|ds|] == High(At(ds, |ds| - 1), q)
  {
    hide High, Low;
    ZeroHigh(q);
  }

  lemma {:induction false} ValueConcat(a: seq<Limb>, b: seq<Limb>)
    ensures Value(a + b) == Value(a) + W(|a|) * Value(b)
    decreases |b|
  {
    if b == [] {
      assert a + b == a;
    } else {
      var n, d := |b| - 1, b[|b| - 1];
      assert (a + b)[..|a| + n] == a + b[..n];
      ValueConcat(a, b[..n]);
      WeightAdd(|a|, n);
      Dist(Value(b[..n]), d * W(n), W(|a|));
      Swap(d, W(|a|), W(n));
    }
  }

  function Zeros(n: nat): (z: seq<Limb>)
    ensures |z| == n
  {
    seq(n, _ => 0)
  }

  lemma {:induction false} ZerosValue(n: nat)
    ensures Value(Zeros(n)) == 0
  {
    if n > 0 {
      assert Zeros(n)[..n - 1] == Zeros(n - 1);
      ZerosValue(n - 1);
    }
  }

  /** Whole limbs of zeros below a number multiply it by their weight. */
  lemma ZerosBelow(n: nat, ds: seq<Limb>)
    ensures Value(Zeros(n) + ds) == W(n) * Value(ds)
  {
    ValueConcat(Zeros(n), ds);
    ZerosValue(n);
  }

  /** Numbers of the same length are equal only if their limbs are. */
  lemma {:induction false} SameLimbs(a: seq<Limb>, b: seq<Limb>)
    requires |a| == |b| && Value(a) == Value(b)
    ensures a == b
    decreases |a|
  {
    if a != [] {
      var n := |a| - 1;
      assert a[n + 1..] == [] == b[n + 1..];
      if a[n] < b[n] { HigherDecides(a, b, n); }
      if b[n] < a[n] { HigherDecides(b, a, n); }
      SameLimbs(a[..n], b[..n]);
      assert a == a[..n] + [a[n]] && b == b[..n] + [b[n]];
    }
  }

  /** The whole factor of a shift. */
  lemma ShiftFactor(shift: nat)
    ensures Pow(2, shift) == W(shift / 64) * Pow(2, shift % 64)
    ensures Split(Pow(2, shift % 64), Pow(2, 64 - shift % 64))
  {
    var o, s := shift / 64, shift % 64;
    WeightIsPow(o);
    PowAdd(2, 64 * o, s);
    assert shift == 64 * o + s;
    PowAdd(2, 64 - s, s);
    PowersOfTwo();
  }

  /** The limbs after a shift by part of a limb and `o` whole ones, without a zero at the top. */
  function Trimmed(ds: seq<Limb>): seq<Limb>
    requires |ds| > 0
  {
    if ds[|ds| - 1] == 0 then ds[..|ds| - 1] else ds
  }

  lemma TrimmedValue(ds: seq<Limb>)
    requires |ds| > 0
    ensures Value(Trimmed(ds)) == Value(ds)
  {
  }

  /** Shifting a nonzero number gives a normal form. */
  lemma ShiftNormal(ds: seq<Limb>, p: nat, q: nat, o: nat)
    requires Normal(ds) && ds != [0] && Split(p, q)
    ensures Normal(Zeros(o) + Trimmed(Shifted(ds, p, q)))
  {
    TopShifted(ds, p, q);
    hide Shifted, Split;
    var t := Zeros(o) + Trimmed(Shifted(ds, p, q));
    assert t[|t| - 1] == Trimmed(Shifted(ds, p, q))[|Trimmed(Shifted(ds, p, q))| - 1];
  }

  /** Of the two highest limbs of a shifted number one is not zero. */
  lemma TopShifted(ds: seq<Limb>, p: nat, q: nat)
    requires Normal(ds) && ds != [0] && Split(p, q)
    ensures Shifted(ds, p, q)[|ds|] != 0 || Shifted(ds, p, q)[|ds| - 1] != 0
  {
    var n, r := |ds|, Shifted(ds, p, q);
    var d := ds[n - 1];
    assert d != 0;
    hide High, Low, Value, W;
    ShiftLimb(d, p, q);
    ZeroHigh(q);
    assert r[n] == High(d, q);
    if r[n] == 0 {
      Mono(1, d, p);
      assert r[n - 1] >= Low(d, q) * p;
    }
  }

  /** Two numbers of the same length with the same highest limb, one times a weight. */
  lemma LimbShift(ds: seq<Limb>, r: seq<Limb>, offset: nat)
    requires |ds| == |r| > 0 && r[|r| - 1] == ds[|ds| - 1]
    ensures W(offset) * Value(r) == W(offset) * Value(ds) <==> r[..|r| - 1] == ds[..|ds| - 1]
  {
    MonoStrict(Value(r), Value(ds), W(offset));
    Assoc(1, W(offset), Value(r));
    if Value(r) == Value(ds) { SameLimbs(r, ds); }
    if r[..|r| - 1] == ds[..|ds| - 1] {
      assert r == ds by {
        assert r == r[..|r| - 1] + [r[|r| - 1]] && ds == ds[..|ds| - 1] + [ds[|ds| - 1]];
      }
    }
  }
}
