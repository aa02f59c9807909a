/** Decimal numerals: their value, and the canonical numeral of a number. */
module Numerals {
  import opened Bytes

  predicate IsDigit(c: Byte) {
    '0' as int <= c <= '9' as int
  }

  predicate AllDigits(ds: Text) {
    forall i :: 0 <= i < |ds| ==> IsDigit(ds[i])
  }

  /** The number that a digit string denotes. */
  function Decimal(ds: Text): nat
    requires AllDigits(ds)
  {
    if ds == [] then 0 else 10 * Decimal(ds[..|ds| - 1]) + (ds[|ds| - 1] - '0' as int)
  }

  function Digit(d: nat): Byte
    requires d < 10
  {
    '0' as int + d
  }

  /** The numeral of `v` without leading zeros. */
  function DecimalText(v: nat): (t: Text)
    ensures AllDigits(t) && |t| > 0
  {
    if v < 10 then [Digit(v)] else DecimalText(v / 10) + [Digit(v % 10)]
  }

  /** The lowest `k` digits of `v`, leading zeros included. */
  function Padded(v: nat, k: nat): (t: Text)
    ensures |t| == k
  {
    if k == 0 then [] else Padded(v / 10, k - 1) + [Digit(v % 10)]
  }

  function Pow10(k: nat): nat {
    if k == 0 then 1 else 10 * Pow10(k - 1)
  }

  /** The numeral denotes its number, and has no leading zero. */
  lemma {:induction false} DecimalOfText(v: nat)
    ensures Decimal(DecimalText(v)) == v
    ensures v > 0 ==> DecimalText(v)[0] != '0' as int
  {
    var t := DecimalText(v);
    if v < 10 {
      assert t[..0] == [];
    } else {
      DecimalOfText(v / 10);
      assert t[..|t| - 1] == DecimalText(v / 10);
      assert t[0] == DecimalText(v / 10)[0];
    }
  }

  /** No other digit string without leading zeros denotes the number. */
  lemma {:induction false} TextIsCanonical(ds: Text)
    requires AllDigits(ds) && |ds| > 0 && (|ds| > 1 ==> ds[0] != '0' as int)
    ensures DecimalText(Decimal(ds)) == ds
    decreases |ds|
  {
    var init, d := ds[..|ds| - 1], ds[|ds| - 1] - '0' as int;
    if |ds| == 1 {
      assert init == [];
    } else {
      TextIsCanonical(init);
      Positive(init);
      assert (10 * Decimal(init) + d) / 10 == Decimal(init) && (10 * Decimal(init) + d) % 10 == d;
    }
  }

  lemma {:induction false} Positive(ds: Text)
    requires AllDigits(ds) && |ds| > 0 && ds[0] != '0' as int
    ensures Decimal(ds) > 0
    decreases |ds|
  {
    if |ds| > 1 { Positive(ds[..|ds| - 1]); }
  }

  /** A numeral continued by `k` more digits. */
  lemma {:induction false} Continued(a: nat, b: nat, k: nat)
    requires a > 0 && b < Pow10(k)
    ensures DecimalText(a) + Padded(b, k) == DecimalText(a * Pow10(k) + b)
    decreases k
  {
    if k == 0 {
      assert DecimalText(a) + [] == DecimalText(a);
    } else {
      var p, v := Pow10(k - 1), a * Pow10(k) + b;
      assert a * (10 * p) == 10 * (a * p);
      assert b / 10 < p;
      assert v / 10 == a * p + b / 10 && v % 10 == b % 10;
      assert v >= 10 by { assert a * p >= 1; }
      Continued(a, b / 10, k - 1);
      assert DecimalText(a) + Padded(b, k) == (DecimalText(a) + Padded(b / 10, k - 1)) + [Digit(b % 10)];
    }
  }

  lemma {:induction false} DecimalBound(ds: Text)
    requires AllDigits(ds)
    ensures Decimal(ds) < Pow10(|ds|)
    decreases |ds|
  {
    if ds != [] { DecimalBound(ds[..|ds| - 1]); }
  }

  lemma {:induction false} Pow10Grows(i: nat, j: nat)
    requires i <= j
    ensures Pow10(i) <= Pow10(j)
    decreases j
  {
    if i < j { Pow10Grows(i, j - 1); }
  }
}
