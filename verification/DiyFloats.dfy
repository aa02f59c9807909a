/** Floating-point numbers with a 64-bit significand: rounded products, normal forms, and the
    boundaries of the decimals that read as a given double. */
module DiyFloats {
  import opened Arith

  const TOP := 0x8000_0000_0000_0000
  const HIDDEN_BIT := 0x10_0000_0000_0000

  datatype DiyFp = DiyFp(f: U64, e: int)

  // ---------------------------------------------------------------- products

  /** The product divided by 2^64, rounded to the nearest integer, halves upwards. */
  function RoundedProduct(x: U64, y: U64): (r: U64)
    ensures r * WORD <= x * y + TOP < r * WORD + WORD
  {
    ProductFits(x, y, TOP);
    (x * y + TOP) / WORD
  }

  /** The form for compilers with 128-bit integers. */
  method MultiplyWide(x: DiyFp, y: DiyFp) returns (r: DiyFp)
    ensures r == DiyFp(RoundedProduct(x.f, y.f), x.e + y.e + 64)
  {
    var p := x.f * y.f;
    ProductFits(x.f, y.f, TOP);
    var h: U64 := p / WORD;
    var l: U64 := p % WORD;
    Divides(p + TOP, WORD, if l >= TOP then h + 1 else h, if l >= TOP then l - TOP else l + TOP);
    if (l / TOP) % 2 == 1 { h := h + 1; }
    r := DiyFp(h, x.e + y.e + 64);
  }

  /** The four partial products add up to the same rounded product; no sum leaves 64 bits. */
  lemma Assembled(x: U64, y: U64, ac: nat, ad: nat, bc: nat, bd: nat, tmp: nat)
    requires x * y == ac * WORD + ad * HALF_WORD + bc * HALF_WORD + bd
    requires tmp == bd / HALF_WORD + ad % HALF_WORD + bc % HALF_WORD + 0x8000_0000
    ensures ac + ad / HALF_WORD + bc / HALF_WORD + tmp / HALF_WORD == RoundedProduct(x, y)
  {
    var q := ac + ad / HALF_WORD + bc / HALF_WORD + tmp / HALF_WORD;
    var r := (tmp % HALF_WORD) * HALF_WORD + bd % HALF_WORD;
    assert x * y + TOP == q * WORD + r;
    Divides(x * y + TOP, WORD, q, r);
  }

  /** The portable form. */
  method Multiply(x: DiyFp, y: DiyFp) returns (r: DiyFp)
    ensures r == DiyFp(RoundedProduct(x.f, y.f), x.e + y.e + 64)
  {
    hide RoundedProduct;
    var a, b := x.f / HALF_WORD, x.f % HALF_WORD;
    var c, d := y.f / HALF_WORD, y.f % HALF_WORD;
    HalvesFit(a, c); HalvesFit(b, c); HalvesFit(a, d); HalvesFit(b, d);
    var ac: U64, bc: U64, ad: U64, bd: U64 := a * c, b * c, a * d, b * d;
    FourProducts(a, b, c, d, ad, bc, bd);
    var tmp: U64 := bd / HALF_WORD + ad % HALF_WORD + bc % HALF_WORD;
    tmp := tmp + 0x8000_0000;
    Assembled(x.f, y.f, ac, ad, bc, bd, tmp);
    r := DiyFp(ac + ad / HALF_WORD + bc / HALF_WORD + tmp / HALF_WORD, x.e + y.e + 64);
  }

  // ---------------------------------------------------------------- normal forms

  predicate Normal(d: DiyFp) {
    d.f >= TOP
  }

  /** Only one shift makes a significand normal, however it is found. */
  lemma NormalOnce(f: nat, s: nat, t: nat)
    requires TOP <= f * Pow(2, s) < WORD && TOP <= f * Pow(2, t) < WORD
    ensures s == t
  {
    if s < t {
      NotTwice(f, s, t);
    } else if t < s {
      NotTwice(f, t, s);
    }
  }

  lemma NotTwice(f: nat, s: nat, t: nat)
    requires s < t && TOP <= f * Pow(2, s)
    ensures f * Pow(2, t) >= WORD
  {
    PowGrows(2, s + 1, t);
    Swap(f, 2, Pow(2, s));
    Mono(Pow(2, s + 1), Pow(2, t), f);
  }

  /** The significand moves up by `s` bits, and the exponent down by as much. */
  function Shifted(d: DiyFp, s: nat): DiyFp
    requires d.f * Pow(2, s) < WORD
  {
    DiyFp(d.f * Pow(2, s), d.e - s)
  }

  lemma ShiftOnce(f: nat, s: nat)
    ensures f * Pow(2, s + 1) == 2 * (f * Pow(2, s))
    ensures f * Pow(2, 0) == f
  {
    Swap(f, 2, Pow(2, s));
  }

  /** Zero has no normal form: the loop would not end. */
  method Normalize(d: DiyFp) returns (r: DiyFp, ghost s: nat)
    requires d.f > 0
    ensures d.f * Pow(2, s) < WORD && r == Shifted(d, s) && Normal(r)
  {
    hide Pow;
    r, s := d, 0;
    ShiftOnce(d.f, 0);
    while (r.f / TOP) % 2 == 0
      invariant 0 < r.f == d.f * Pow(2, s) < WORD && r.e == d.e - s
      decreases WORD - r.f
    {
      ShiftOnce(d.f, s);
      r, s := DiyFp(2 * r.f, r.e - 1), s + 1;
    }
  }

  /** The normal form of a significand of at most 54 bits. */
  method NormalizeBoundary(d: DiyFp) returns (r: DiyFp, ghost s: nat)
    requires 0 < d.f < 4 * HIDDEN_BIT
    ensures d.f * Pow(2, s) < WORD && r == Shifted(d, s) && Normal(r) && s >= 10
  {
    hide Pow;
    r, s := d, 0;
    ShiftOnce(d.f, 0);
    while (r.f / (2 * HIDDEN_BIT)) % 2 == 0
      invariant 0 < r.f == d.f * Pow(2, s) < 4 * HIDDEN_BIT && r.e == d.e - s
      decreases 4 * HIDDEN_BIT - r.f
    {
      ShiftOnce(d.f, s);
      r, s := DiyFp(2 * r.f, r.e - 1), s + 1;
    }
    PowAdd(2, s, 10);
    PowersOfTwo();
    Assoc(d.f, Pow(2, s), 0x400);
    r, s := DiyFp(r.f * 0x400, r.e - 10), s + 10;
  }

  // ---------------------------------------------------------------- the boundaries of a double

  /** Half way to the next larger double, `s` bits up. */
  predicate UpperFits(v: DiyFp, s: nat) {
    0 < v.f < 2 * HIDDEN_BIT && s >= 10 && TOP <= (2 * v.f + 1) * Pow(2, s) < WORD
  }

  function Upper(v: DiyFp, s: nat): DiyFp
    requires UpperFits(v, s)
  {
    Shifted(DiyFp(2 * v.f + 1, v.e - 1), s)
  }

  /** Half way to the next smaller double, which is nearer below a power of two, with the same exponent. */
  function Lower(v: DiyFp, s: nat): DiyFp
    requires UpperFits(v, s)
  {
    LowerFits(v, s);
    DiyFp(if v.f == HIDDEN_BIT then (4 * v.f - 1) * Pow(2, s - 1) else (2 * v.f - 1) * Pow(2, s), v.e - 1 - s)
  }

  /** The boundaries and the number between them, all with the same exponent, lie well apart. */
  lemma LowerFits(v: DiyFp, s: nat)
    requires UpperFits(v, s)
    ensures TOP <= v.f * Pow(2, s + 1) && v.f * Pow(2, s + 1) + 0x200 <= (2 * v.f + 1) * Pow(2, s)
    ensures var l := if v.f == HIDDEN_BIT then (4 * v.f - 1) * Pow(2, s - 1) else (2 * v.f - 1) * Pow(2, s);
            0 < l && l + 0x200 <= v.f * Pow(2, s + 1)
  {
    hide Pow;
    var p := Pow(2, s - 1);
    var x := v.f * p;
    InUnits(v.f, s, p, x);
    PowGrows(2, 9, s - 1);
    PowersOfTwo();
    Mono(1, v.f, p);
    ShiftBounded(v.f, s);
    TopIsMultiple(s + 1, v.f, 2 * p);
  }

  /** All of them in units of a quarter of the distance to the next double. */
  lemma InUnits(f: nat, s: nat, p: nat, x: nat)
    requires s > 0 && p == Pow(2, s - 1) && x == f * p
    ensures Pow(2, s + 1) == 4 * p && f * Pow(2, s + 1) == 4 * x
    ensures (2 * f + 1) * Pow(2, s) == 4 * x + 2 * p && (2 * f - 1) * Pow(2, s) == 4 * x - 2 * p
    ensures (4 * f - 1) * Pow(2, s - 1) == 4 * x - p
  {
    assert Pow(2, s) == 2 * p && Pow(2, s + 1) == 4 * p;
    hide Pow;
    Swap(f, 4, p);
    Swap(f, 2, p);
    Scaled(2, f, 1, 2 * p);
    Scaled(2, f, -1, 2 * p);
    Scaled(4, f, -1, p);
  }

  lemma Scaled(a: int, f: int, b: int, p: int)
    ensures (a * f + b) * p == a * (f * p) + b * p
  {
    Dist(a * f, b, p);
    Assoc(a, f, p);
  }

  /** `TOP` is a multiple of a smaller power of two, and lies less than one multiple away. */
  lemma TopIsMultiple(s: nat, f: nat, half: nat)
    requires Pow(2, s) == 2 * half && s <= 63 && TOP <= f * Pow(2, s) + half
    ensures TOP <= f * Pow(2, s)
  {
    hide Pow;
    var m, q := Pow(2, 63 - s), Pow(2, s);
    PowAdd(2, 63 - s, s);
    PowersOfTwo();
    Dist(f, 1, q);
    MonoStrict(m, f + 1, q);
    Mono(m, f, q);
  }

  lemma ShiftBounded(f: nat, s: nat)
    requires f > 0 && (2 * f + 1) * Pow(2, s) < WORD
    ensures s <= 62
  {
    hide Pow;
    Mono(3, 2 * f + 1, Pow(2, s));
    PowersOfTwo();
    if s >= 63 { PowGrows(2, 63, s); }
  }

  method NormalizedBoundaries(v: DiyFp) returns (minus: DiyFp, plus: DiyFp, ghost s: nat)
    requires 0 < v.f < 2 * HIDDEN_BIT
    ensures UpperFits(v, s) && plus == Upper(v, s) && minus == Lower(v, s)
    ensures Normal(plus) && minus.e == plus.e && 0 < minus.f && minus.f + 0x400 <= plus.f
  {
    plus, s := NormalizeBoundary(DiyFp(2 * v.f + 1, v.e - 1));
    LowerFits(v, s);
    minus := if v.f == HIDDEN_BIT then DiyFp(4 * v.f - 1, v.e - 2) else DiyFp(2 * v.f - 1, v.e - 1);
    minus := DiyFp(minus.f * Pow(2, minus.e - plus.e), plus.e);
  }
}
