/** Integers to decimal text, two digits at a time from a table. */
module Itoa {
  import opened Arith
  import opened Bytes
  import opened Numerals

  /** The table of the hundred two-digit numerals, end to end. */
  function DigitsLut(i: nat): Byte
    requires i < 200
  {
    Digit(if i % 2 == 0 then i / 2 / 10 else i / 2 % 10)
  }

  const TEN4: nat := 10000
  const TEN8: nat := 100000000
  const TEN12: nat := TEN4 * TEN8
  const TEN16: nat := TEN8 * TEN8

  lemma Powers()
    ensures Pow10(1) == 10 && Pow10(2) == 100 && Pow10(3) == 1000 && Pow10(4) == TEN4
    ensures Pow10(8) == TEN8 && Pow10(16) == TEN16
  {
    assert Pow10(4) == 10 * Pow10(3) == 100 * Pow10(2) == 1000 * Pow10(1);
    assert Pow10(8) == 10 * Pow10(7) == 100 * Pow10(6) == 1000 * Pow10(5) == TEN4 * Pow10(4);
    assert Pow10(12) == 10 * Pow10(11) == 100 * Pow10(10) == 1000 * Pow10(9) == TEN4 * Pow10(8);
    assert Pow10(16) == 10 * Pow10(15) == 100 * Pow10(14) == 1000 * Pow10(13) == TEN4 * Pow10(12);
  }

  /** Padded digits come in blocks. */
  lemma {:induction false} PaddedSplit(a: nat, b: nat, j: nat, k: nat)
    requires b < Pow10(k)
    ensures Padded(a * Pow10(k) + b, j + k) == Padded(a, j) + Padded(b, k)
    decreases k
  {
    if k == 0 {
      assert Padded(a, j) + [] == Padded(a, j);
    } else {
      var p, v := Pow10(k - 1), a * Pow10(k) + b;
      assert a * (10 * p) == 10 * (a * p);
      assert v / 10 == a * p + b / 10 && v % 10 == b % 10;
      PaddedSplit(a, b / 10, j, k - 1);
      assert Padded(a, j) + Padded(b, k) == (Padded(a, j) + Padded(b / 10, k - 1)) + [Digit(b % 10)];
    }
  }

  /** The digits that the table gives for a number below 10000. */
  function LutFour(b: nat): Text
    requires b < TEN4
  {
    var d1, d2 := b / 100 * 2, b % 100 * 2;
    [DigitsLut(d1), DigitsLut(d1 + 1), DigitsLut(d2), DigitsLut(d2 + 1)]
  }

  /** A number below 10000 from its digits. */
  lemma FourDigits(b: nat)
    requires b < TEN4
    ensures var q0, q1, q2, q3 := b / 1000, b / 100 % 10, b / 10 % 10, b % 10;
      LutFour(b) == [Digit(q0), Digit(q1), Digit(q2), Digit(q3)]
      && b / 10 == 10 * (10 * q0 + q1) + q2 && b == 10 * (10 * (10 * q0 + q1) + q2) + q3
  {
    var b1, b2, b3 := b / 10, b / 100, b / 1000;
    assert b1 / 10 == b2 && b2 / 10 == b3;
    assert b2 * 2 / 2 / 10 == b3 && (b % 100) / 10 == b1 % 10 && b % 100 % 10 == b % 10;
  }

  lemma LutIsPadded(b: nat)
    requires b < TEN4
    ensures LutFour(b) == Padded(b, 4)
  {
    FourDigits(b);
    var q0, q1, q2, q3 := b / 1000, b / 100 % 10, b / 10 % 10, b % 10;
    hide LutFour;
    PaddedStep(10 * (10 * q0 + q1) + q2, q3, 3);
    PaddedStep(10 * q0 + q1, q2, 2);
    PaddedStep(q0, q1, 1);
    PaddedStep(0, q0, 0);
    assert Padded(0, 0) == [];
  }

  lemma PaddedStep(v: nat, d: nat, k: nat)
    requires d < 10
    ensures Padded(10 * v + d, k + 1) == Padded(v, k) + [Digit(d)]
  {
  }

  lemma TextStep(v: nat, d: nat)
    requires v > 0 && d < 10
    ensures DecimalText(10 * v + d) == DecimalText(v) + [Digit(d)]
  {
  }

  lemma TextOne(d: nat)
    requires d < 10
    ensures DecimalText(d) == [Digit(d)]
  {
  }

  /** One digit, or none. */
  function Maybe(some: bool, c: Byte): Text {
    if some then [c] else []
  }

  lemma Nothing(t: Text)
    ensures [] + t == t && [] + [] + t == t && [] + [] + [] + t == t
  {
  }

  /** A numeral from its digits. */
  lemma TextDigits(q0: nat, q1: nat, q2: nat, q3: nat)
    requires q0 < 10 && q1 < 10 && q2 < 10 && q3 < 10
    ensures DecimalText(10 * (10 * (10 * q0 + q1) + q2) + q3)
         == Maybe(q0 > 0, Digit(q0)) + Maybe(q0 > 0 || q1 > 0, Digit(q1)) + Maybe(q0 > 0 || q1 > 0 || q2 > 0, Digit(q2)) + [Digit(q3)]
  {
    hide DecimalText, Digit, Maybe;
    var v2 := 10 * (10 * q0 + q1) + q2;
    if v2 > 0 {
      TextThree(q0, q1, q2);
      TextStep(v2, q3);
      assert (q0 > 0 || q1 > 0 || q2 > 0) == true;
    } else {
      TextOne(q3);
      NoDigits(Digit(q0), Digit(q1), Digit(q2), [Digit(q3)]);
      assert q0 == 0 && q1 == 0 && q2 == 0;
    }
  }

  lemma NoDigits(c0: Byte, c1: Byte, c2: Byte, t: Text)
    ensures Maybe(false, c0) + Maybe(false, c1) + Maybe(false, c2) + t == t
  {
    Nothing(t);
  }

  lemma TextThree(q0: nat, q1: nat, q2: nat)
    requires q0 < 10 && q1 < 10 && q2 < 10 && q0 + q1 + q2 > 0
    ensures DecimalText(10 * (10 * q0 + q1) + q2) == Maybe(q0 > 0, Digit(q0)) + Maybe(q0 > 0 || q1 > 0, Digit(q1)) + Maybe(true, Digit(q2))
  {
    hide DecimalText, Digit;
    if q0 + q1 > 0 {
      TextTwo(q0, q1);
      TextStep(10 * q0 + q1, q2);
    } else {
      TextOne(q2);
      Nothing([Digit(q2)]);
    }
  }

  lemma TextTwo(q0: nat, q1: nat)
    requires q0 < 10 && q1 < 10 && q0 + q1 > 0
    ensures DecimalText(10 * q0 + q1) == Maybe(q0 > 0, Digit(q0)) + Maybe(true, Digit(q1))
  {
    hide DecimalText, Digit;
    if q0 > 0 {
      TextOne(q0);
      TextStep(q0, q1);
    } else {
      TextOne(q1);
      Nothing([Digit(q1)]);
    }
  }

  /** The numeral of a number below 10000, with the table's digits. */
  lemma TextFour(b: nat)
    requires b < TEN4
    ensures
      var t := LutFour(b);
      DecimalText(b) == Maybe(b >= 1000, t[0]) + Maybe(b >= 100, t[1]) + Maybe(b >= 10, t[2]) + [t[3]]
  {
    hide DecimalText, LutFour;
    FourDigits(b);
    TextDigits(b / 1000, b / 100 % 10, b / 10 % 10, b % 10);
  }

  lemma Threshold(value: nat, unit: nat, k: nat)
    requires unit > 0
    ensures value >= k * unit <==> value / unit >= k
  {
    var q, r := value / unit, value % unit;
    assert value == q * unit + r;
    if q >= k {
      assert q * unit >= k * unit;
    } else {
      assert (q + 1) * unit <= k * unit;
      assert (q + 1) * unit == q * unit + unit;
    }
  }

  /** A caller's character array with the position to write next. */
  class Buffer {
    const chars: array<Byte>
    var p: nat

    ghost predicate Valid()
      reads this
    {
      p <= chars.Length
    }

    ghost function Written(): Text
      requires Valid()
      reads this, chars
    {
      chars[..p]
    }

    constructor (capacity: nat)
      ensures Valid() && fresh(chars) && chars.Length == capacity && Written() == []
    {
      chars := new Byte[capacity];
      p := 0;
    }

    method Put(c: Byte)
      requires Valid() && p < chars.Length
      modifies this, chars
      ensures Valid() && Written() == old(Written()) + [c] && p == old(p) + 1
    {
      chars[p] := c;
      p := p + 1;
    }

    /** Four digits, leading zeros included. */
    method PutFour(b: nat)
      requires Valid() && b < TEN4 && p + 4 <= chars.Length
      modifies this, chars
      ensures Valid() && Written() == old(Written()) + Padded(b, 4) && p == old(p) + 4
    {
      LutIsPadded(b);
      hide Padded, DigitsLut;
      var d1, d2 := b / 100 * 2, b % 100 * 2;
      Put(DigitsLut(d1));
      Put(DigitsLut(d1 + 1));
      Put(DigitsLut(d2));
      Put(DigitsLut(d2 + 1));
      assert Written() == old(Written()) + LutFour(b);
    }

    /** Four digits of `value`, the last of which counts units of `unit`: each one is written
        if `value` reaches that far. */
    method PutReached(value: nat, b: nat, unit: nat)
      requires Valid() && b < TEN4 && p + 4 <= chars.Length
      modifies this, chars
      ensures Valid() && Written() == old(Written()) + Reached(value, b, unit) && p <= old(p) + 4
    {
      hide DigitsLut;
      var d1, d2 := b / 100 * 2, b % 100 * 2;
      if value >= 1000 * unit { Put(DigitsLut(d1)); }
      if value >= 100 * unit { Put(DigitsLut(d1 + 1)); }
      if value >= 10 * unit { Put(DigitsLut(d2)); }
      if value >= unit { Put(DigitsLut(d2 + 1)); }
      Grouped(old(Written()), Maybe(value >= 1000 * unit, DigitsLut(d1)), Maybe(value >= 100 * unit, DigitsLut(d1 + 1)),
              Maybe(value >= 10 * unit, DigitsLut(d2)), Maybe(value >= unit, DigitsLut(d2 + 1)));
    }

    /** Eight digits, leading zeros included. */
    method PutEight(v: nat)
      requires Valid() && v < TEN8 && p + 8 <= chars.Length
      modifies this, chars
      ensures Valid() && Written() == old(Written()) + Padded(v, 8) && p == old(p) + 8
    {
      Powers();
      PaddedSplit(v / TEN4, v % TEN4, 4, 4);
      hide Padded, Pow10;
      PutFour(v / TEN4);
      PutFour(v % TEN4);
    }

    /** Four digits without leading zeros; zero has one digit. */
    method PutUpToFour(v: nat)
      requires Valid() && v < TEN4 && p + 4 <= chars.Length
      modifies this, chars
      ensures Valid() && Written() == old(Written()) + DecimalText(v) && p <= old(p) + 4
    {
      TextFour(v);
      hide DecimalText, DigitsLut;
      var d1, d2 := v / 100 * 2, v % 100 * 2;
      if v >= 1000 { Put(DigitsLut(d1)); }
      if v >= 100 { Put(DigitsLut(d1 + 1)); }
      if v >= 10 { Put(DigitsLut(d2)); }
      Put(DigitsLut(d2 + 1));
      Grouped(old(Written()), Maybe(v >= 1000, DigitsLut(d1)), Maybe(v >= 100, DigitsLut(d1 + 1)), Maybe(v >= 10, DigitsLut(d2)), [DigitsLut(d2 + 1)]);
    }

    /** The digits of `value` above the lowest eight, without leading zeros. */
    method PutUpToEight(value: nat)
      requires Valid() && TEN8 <= value < TEN16 && p + 8 <= chars.Length
      modifies this, chars
      ensures Valid() && Written() == old(Written()) + DecimalText(value / TEN8) && p <= old(p) + 8
    {
      hide DecimalText, Reached;
      var v0 := value / TEN8;
      var b, c := v0 / TEN4, v0 % TEN4;
      PutReached(value, b, TEN12);
      PutReached(value, c, TEN8);
      ReachedEight(value);
      GroupedTwo(old(Written()), Reached(value, b, TEN12), Reached(value, c, TEN8));
    }

    /** Up to four digits in front of sixteen others. */
    method PutLead(a: nat)
      requires Valid() && 0 < a < TEN4 && p + 4 <= chars.Length
      modifies this, chars
      ensures Valid() && Written() == old(Written()) + DecimalText(a) && p <= old(p) + 4
    {
      hide DecimalText, DigitsLut;
      if a < 10 {
        TextOne(a);
        Put('0' as int + a);
      } else if a < 100 {
        TwoDigits(a);
        var i := a * 2;
        Put(DigitsLut(i));
        Put(DigitsLut(i + 1));
      } else if a < 1000 {
        Put('0' as int + a / 100);
        var i := a % 100 * 2;
        Put(DigitsLut(i));
        Put(DigitsLut(i + 1));
        ThreeDigits(a);
      } else {
        var i, j := a / 100 * 2, a % 100 * 2;
        Put(DigitsLut(i));
        Put(DigitsLut(i + 1));
        Put(DigitsLut(j));
        Put(DigitsLut(j + 1));
        TextFour(a);
      }
    }
  }

  /** The digits that `PutReached` writes. */
  function Reached(value: nat, b: nat, unit: nat): Text
    requires b < TEN4
  {
    var t := LutFour(b);
    Maybe(value >= 1000 * unit, t[0]) + Maybe(value >= 100 * unit, t[1]) + Maybe(value >= 10 * unit, t[2]) + Maybe(value >= unit, t[3])
  }

  lemma Grouped(o: Text, a: Text, b: Text, c: Text, d: Text)
    ensures (((o + a) + b) + c) + d == o + (a + b + c + d)
  {
  }

  lemma GroupedTwo(o: Text, a: Text, b: Text)
    ensures (o + a) + b == o + (a + b)
  {
  }

  /** Nothing is written of a number that is too small, all of one that is large enough. */
  lemma ReachedEnds(value: nat, b: nat, unit: nat)
    requires b < TEN4 && unit > 0
    ensures value < unit ==> Reached(value, b, unit) == []
    ensures value >= 1000 * unit ==> Reached(value, b, unit) == LutFour(b)
    ensures 0 < b == value / unit ==> Reached(value, b, unit) == DecimalText(b)
  {
    TextFour(b);
    hide LutFour, DecimalText;
    Threshold(value, unit, 1000);
    Threshold(value, unit, 100);
    Threshold(value, unit, 10);
    Threshold(value, unit, 1);
  }

  lemma ReachedEight(value: nat)
    requires TEN8 <= value < TEN16
    ensures
      var v0 := value / TEN8;
      Reached(value, v0 / TEN4, TEN12) + Reached(value, v0 % TEN4, TEN8) == DecimalText(v0)
  {
    hide Reached, DecimalText, LutFour, Padded, Pow10;
    var v0 := value / TEN8;
    var b, c := v0 / TEN4, v0 % TEN4;
    assert value / TEN12 == b;
    ReachedEnds(value, b, TEN12);
    ReachedEnds(value, c, TEN8);
    LutIsPadded(c);
    Powers();
    if b > 0 {
      Continued(b, c, 4);
    } else {
      assert v0 == c;
    }
  }

  /** The highest digits of a number followed by its lowest four, eight or sixteen. */
  lemma SplitFour(o: Text, v: nat)
    requires v >= TEN4
    ensures (o + DecimalText(v / TEN4)) + Padded(v % TEN4, 4) == o + DecimalText(v)
  {
    hide DecimalText, Pow10, Padded;
    Powers();
    Continued(v / TEN4, v % TEN4, 4);
  }

  lemma SplitEight(o: Text, v: nat)
    requires v >= TEN8
    ensures (o + DecimalText(v / TEN8)) + Padded(v % TEN8, 8) == o + DecimalText(v)
  {
    hide DecimalText, Pow10, Padded;
    Powers();
    Continued(v / TEN8, v % TEN8, 8);
  }

  lemma SplitSixteen(o: Text, v: nat)
    requires v >= TEN16
    ensures var r := v % TEN16;
      ((o + DecimalText(v / TEN16)) + Padded(r / TEN8, 8)) + Padded(r % TEN8, 8) == o + DecimalText(v)
  {
    hide DecimalText, Pow10, Padded;
    Powers();
    var r := v % TEN16;
    PaddedSplit(r / TEN8, r % TEN8, 8, 8);
    Continued(v / TEN16, r, 16);
  }

  // ---------------------------------------------------------------- the conversions

  /** At most ten digits. */
  method U32toa(value: nat, buffer: Buffer)
    requires value <= 0xFFFF_FFFF && buffer.Valid() && buffer.p + 10 <= buffer.chars.Length
    modifies buffer, buffer.chars
    ensures buffer.Valid() && buffer.Written() == old(buffer.Written()) + DecimalText(value) && buffer.p <= old(buffer.p) + 10
  {
    hide DecimalText, Padded, DigitsLut;
    if value < TEN4 {
      buffer.PutUpToFour(value);
    } else if value < TEN8 {
      var b, c := value / TEN4, value % TEN4;
      buffer.PutUpToFour(b);
      buffer.PutFour(c);
      SplitFour(old(buffer.Written()), value);
    } else {
      var a, rest := value / TEN8, value % TEN8;
      if a >= 10 {
        TwoDigits(a);
        buffer.Put(DigitsLut(a * 2));
        buffer.Put(DigitsLut(a * 2 + 1));
      } else {
        TextOne(a);
        buffer.Put('0' as int + a);
      }
      assert buffer.p <= old(buffer.p) + 2;
      buffer.PutEight(rest);
      SplitEight(old(buffer.Written()), value);
    }
  }

  lemma ThreeDigits(a: nat)
    requires 100 <= a < 1000
    ensures DecimalText(a) == ['0' as int + a / 100, DigitsLut(a % 100 * 2), DigitsLut(a % 100 * 2 + 1)]
  {
    hide DecimalText, Digit, DigitsLut;
    var q0, q1, q2 := a / 100, a / 10 % 10, a % 10;
    assert 10 * (10 * q0 + q1) + q2 == a;
    TextOne(q0);
    TextStep(q0, q1);
    TextStep(10 * q0 + q1, q2);
    LutAt(q1, q2);
    Divides(a, 100, q0, 10 * q1 + q2);
    DigitIs(q0);
  }

  lemma LutAt(t: nat, u: nat)
    requires t < 10 && u < 10
    ensures DigitsLut((10 * t + u) * 2) == Digit(t) && DigitsLut((10 * t + u) * 2 + 1) == Digit(u)
  {
    assert (10 * t + u) / 10 == t && (10 * t + u) % 10 == u;
  }

  lemma DigitIs(d: nat)
    requires d < 10
    ensures Digit(d) == '0' as int + d
  {
  }

  lemma TwoDigits(a: nat)
    requires 10 <= a < 100
    ensures DecimalText(a) == [DigitsLut(a * 2), DigitsLut(a * 2 + 1)]
  {
    TextOne(a / 10);
    TextStep(a / 10, a % 10);
  }

  /** At most twenty digits. */
  method U64toa(value: nat, buffer: Buffer)
    requires value <= 0xFFFF_FFFF_FFFF_FFFF && buffer.Valid() && buffer.p + 20 <= buffer.chars.Length
    modifies buffer, buffer.chars
    ensures buffer.Valid() && buffer.Written() == old(buffer.Written()) + DecimalText(value) && buffer.p <= old(buffer.p) + 20
  {
    hide DecimalText, Padded, DigitsLut;
    if value < TEN8 {
      if value < TEN4 {
        buffer.PutUpToFour(value);
      } else {
        var b, c := value / TEN4, value % TEN4;
        buffer.PutUpToFour(b);
        buffer.PutFour(c);
        SplitFour(old(buffer.Written()), value);
      }
    } else if value < TEN16 {
      var v0, v1 := value / TEN8, value % TEN8;
      buffer.PutUpToEight(value);
      buffer.PutEight(v1);
      SplitEight(old(buffer.Written()), value);
    } else {
      var a, rest := value / TEN16, value % TEN16;
      buffer.PutLead(a);
      buffer.PutEight(rest / TEN8);
      buffer.PutEight(rest % TEN8);
      SplitSixteen(old(buffer.Written()), value);
    }
  }

  /** The text of an integer. */
  function IntegerText(v: int): Text {
    if v < 0 then ['-' as int] + DecimalText(-v) else DecimalText(v)
  }

  /** Two's complement negation in `m` values. */
  lemma Negated(value: int, m: int)
    requires m > 1 && -m < value < 0
    ensures (m - 1 - value % m + 1) % m == -value
  {
    assert value + m == 0 * m + (value + m);
    assert value % m == value + m by { Divides(value, m, -1, value + m); }
    Divides(-value, m, 0, -value);
  }

  method I32toa(value: int, buffer: Buffer)
    requires -0x8000_0000 <= value <= 0x7FFF_FFFF && buffer.Valid() && buffer.p + 11 <= buffer.chars.Length
    modifies buffer, buffer.chars
    ensures buffer.Valid() && buffer.Written() == old(buffer.Written()) + IntegerText(value)
  {
    hide DecimalText;
    var u := value % 0x1_0000_0000;
    if value < 0 {
      buffer.Put('-' as int);
      u := (0xFFFF_FFFF - u + 1) % 0x1_0000_0000;
      Negated(value, 0x1_0000_0000);
      U32toa(u, buffer);
      GroupedTwo(old(buffer.Written()), ['-' as int], DecimalText(u));
    } else {
      U32toa(u, buffer);
    }
  }

  method I64toa(value: int, buffer: Buffer)
    requires -0x8000_0000_0000_0000 <= value <= 0x7FFF_FFFF_FFFF_FFFF && buffer.Valid() && buffer.p + 21 <= buffer.chars.Length
    modifies buffer, buffer.chars
    ensures buffer.Valid() && buffer.Written() == old(buffer.Written()) + IntegerText(value)
  {
    hide DecimalText;
    var u := value % 0x1_0000_0000_0000_0000;
    if value < 0 {
      buffer.Put('-' as int);
      u := (0xFFFF_FFFF_FFFF_FFFF - u + 1) % 0x1_0000_0000_0000_0000;
      Negated(value, 0x1_0000_0000_0000_0000);
      U64toa(u, buffer);
      GroupedTwo(old(buffer.Written()), ['-' as int], DecimalText(u));
    } else {
      U64toa(u, buffer);
    }
  }
}
