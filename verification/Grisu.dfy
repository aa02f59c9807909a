/** The digit generation of the Grisu2 algorithm: the digits of a number in an interval of
    fixed-point numbers, and the rounding of the last digit. */
module Grisu {
  import opened Arith
  import opened Bytes
  import opened Numerals
  import opened Itoa

  // ---------------------------------------------------------------- the last digit

  ghost function Distance(x: int, y: int): nat {
    if x < y then y - x else x - y
  }

  /** The test of the rounding loop: one less in the last digit stays in the interval and
      comes closer. All of it is computed without overflow. */
  predicate Closer(delta: U64, rest: U64, tenKappa: U64, wpw: U64) {
    rest < wpw && rest <= delta && delta - rest >= tenKappa
    && (rest + tenKappa < wpw || wpw - rest > rest + tenKappa - wpw)
  }

  lemma CloserMeans(delta: U64, rest: U64, tenKappa: U64, wpw: U64)
    requires rest <= delta && tenKappa > 0
    ensures Closer(delta, rest, tenKappa, wpw) <==> rest + tenKappa <= delta && Distance(rest + tenKappa, wpw) < Distance(rest, wpw)
  {
  }

  /** Once a step does not come closer, no number of steps does. */
  lemma {:induction false} NoneCloser(delta: U64, rest: U64, tenKappa: U64, wpw: U64, k: nat)
    requires rest <= delta && tenKappa > 0 && !Closer(delta, rest, tenKappa, wpw) && rest + k * tenKappa <= delta
    ensures Distance(rest, wpw) <= Distance(rest + k * tenKappa, wpw)
  {
    if k > 0 {
      Mono(1, k, tenKappa);
      CloserMeans(delta, rest, tenKappa, wpw);
    }
  }

  /** The number of steps after which the loop stops is the best one. */
  ghost predicate Best(delta: U64, rest0: U64, tenKappa: U64, wpw: U64, k: nat) {
    forall j: nat :: rest0 + j * tenKappa <= delta ==> Distance(rest0 + k * tenKappa, wpw) <= Distance(rest0 + j * tenKappa, wpw)
  }

  lemma LoopBest(delta: U64, rest0: U64, tenKappa: U64, wpw: U64, k: nat, before: U64, rest: U64)
    requires tenKappa > 0 && rest == rest0 + k * tenKappa <= delta && !Closer(delta, rest, tenKappa, wpw)
    requires k > 0 ==> before + tenKappa == rest && Closer(delta, before, tenKappa, wpw)
    ensures Best(delta, rest0, tenKappa, wpw, k)
  {
    forall j: nat | rest0 + j * tenKappa <= delta ensures Distance(rest, wpw) <= Distance(rest0 + j * tenKappa, wpw) {
      if j > k {
        Dist(k, j - k, tenKappa);
        NoneCloser(delta, rest, tenKappa, wpw, j - k);
      } else if j < k {
        CloserMeans(delta, before, tenKappa, wpw);
        Dist(k, -1, tenKappa);
        Mono(j, k - 1, tenKappa);
      }
    }
  }

  /** Lowers the last digit as long as that comes closer to `wpw`. The result is the closest
      of all lowered numbers in the interval, and no digit falls below zero. */
  method GrisuRound(buffer: Buffer, delta: U64, rest0: U64, tenKappa: U64, wpw: U64) returns (ghost k: nat)
    requires buffer.Valid() && buffer.p > 0 && tenKappa > 0 && rest0 <= delta
    requires IsDigit(buffer.chars[buffer.p - 1])
    requires delta <= rest0 + (buffer.chars[buffer.p - 1] - '0' as int) * tenKappa
    modifies buffer.chars
    ensures k <= old(buffer.chars[buffer.p - 1]) - '0' as int && rest0 + k * tenKappa <= delta
    ensures buffer.Valid() && buffer.Written() == old(buffer.Written())[buffer.p - 1 := old(buffer.chars[buffer.p - 1]) - k]
    ensures Best(delta, rest0, tenKappa, wpw, k)
  {
    hide Closer, Distance, Best;
    var rest: U64 := rest0;
    var last := buffer.p - 1;
    ghost var c, before: U64 := buffer.chars[last], rest0;
    k := 0;
    while Closer(delta, rest, tenKappa, wpw)
      invariant rest == rest0 + k * tenKappa <= delta && k <= c - '0' as int
      invariant k > 0 ==> before + tenKappa == rest && Closer(delta, before, tenKappa, wpw)
      invariant buffer.Written() == old(buffer.Written())[last := c - k]
      decreases delta - rest
    {
      CloserMeans(delta, rest, tenKappa, wpw);
      StepsBelow(k, c - '0' as int, tenKappa, rest0, delta);
      Dist(k, 1, tenKappa);
      buffer.chars[last] := buffer.chars[last] - 1;
      before := rest;
      rest := rest + tenKappa;
      k := k + 1;
    }
    LoopBest(delta, rest0, tenKappa, wpw, k, before, rest);
  }

  /** A step that stays below `delta` leaves the digit at zero or above. */
  lemma StepsBelow(k: nat, d: nat, tenKappa: U64, rest0: U64, delta: U64)
    requires tenKappa > 0 && k <= d && rest0 + k * tenKappa + tenKappa <= delta <= rest0 + d * tenKappa
    ensures k < d
  {
  }

  // ---------------------------------------------------------------- the interval

  /** An upper bound `m` in units of `1 / one`, and the length of the interval below it. */
  datatype Bounds = Bounds(m: nat, delta: nat, one: nat)

  /** A decimal exponent `k` as a common factor: below zero the bounds are scaled up, else the
      unit is. */
  ghost function ScaleUp(k: int): (r: nat)
    ensures r > 0
  {
    Pow10Positive(if k < 0 then -k else 0);
    Pow10(if k < 0 then -k else 0)
  }

  ghost function Unit(b: Bounds, k: int): nat {
    Pow10(if k < 0 then 0 else k) * b.one
  }

  lemma {:induction false} Pow10Positive(k: nat)
    ensures Pow10(k) > 0
  {
    if k > 0 { Pow10Positive(k - 1); }
  }

  /** `n * 10^k` lies in the interval. */
  ghost predicate InInterval(b: Bounds, n: nat, k: int) {
    (b.m - b.delta) * ScaleUp(k) <= n * Unit(b, k) <= b.m * ScaleUp(k)
  }

  /** No multiple of `10^k` lies above the lower end of the interval. */
  ghost predicate NoneAt(b: Bounds, k: int) {
    forall n: nat :: !((b.m - b.delta) * ScaleUp(k) < n * Unit(b, k) <= b.m * ScaleUp(k))
  }

  /** No other multiple of `10^k` in the interval is closer to `w`. */
  ghost predicate Closest(b: Bounds, n: nat, k: int, w: nat) {
    forall n': nat :: InInterval(b, n', k) ==>
      Distance(n * Unit(b, k), w * ScaleUp(k)) <= Distance(n' * Unit(b, k), w * ScaleUp(k))
  }

  /** The digits so far and what is left of the upper bound. */
  ghost predicate Left(b: Bounds, n: nat, k: int, rest: nat) {
    b.m * ScaleUp(k) == n * Unit(b, k) + rest && rest < Unit(b, k)
  }

  /** As long as more is left than the interval is long, more digits are needed. */
  lemma NeedsMore(b: Bounds, n: nat, k: int, rest: nat)
    requires Left(b, n, k, rest) && b.delta <= b.m && rest >= b.delta * ScaleUp(k)
    ensures NoneAt(b, k)
  {
    var u, s := Unit(b, k), ScaleUp(k);
    DistMinus(b.m, b.delta, s);
    forall n': nat ensures !((b.m - b.delta) * s < n' * u <= b.m * s) {
      if n' <= n {
        Mono(n', n, u);
      } else {
        Mono(n + 1, n', u);
        Dist(n, 1, u);
      }
    }
  }

  /** Once less is left, the digits are in the interval, and stay there when rounded. */
  lemma Rounded(b: Bounds, n: nat, k: int, rest: nat, j: nat)
    requires Left(b, n, k, rest) && b.delta <= b.m && j <= n && rest + j * Unit(b, k) <= b.delta * ScaleUp(k)
    ensures InInterval(b, n - j, k)
    ensures b.m * ScaleUp(k) - (n - j) * Unit(b, k) == rest + j * Unit(b, k)
  {
    DistMinus(n, j, Unit(b, k));
    DistMinus(b.m, b.delta, ScaleUp(k));
  }

  /** The rounded digits are the closest of all that lie in the interval. */
  lemma RoundedClosest(b: Bounds, n: nat, k: int, rest: nat, j: nat, w: nat)
    requires Left(b, n, k, rest) && b.delta <= b.m && j <= n && w <= b.m && rest + j * Unit(b, k) <= b.delta * ScaleUp(k)
    requires forall i: nat :: rest + i * Unit(b, k) <= b.delta * ScaleUp(k) ==>
      Distance(rest + j * Unit(b, k), (b.m - w) * ScaleUp(k)) <= Distance(rest + i * Unit(b, k), (b.m - w) * ScaleUp(k))
    ensures Closest(b, n - j, k, w)
  {
    var u, s := Unit(b, k), ScaleUp(k);
    Rounded(b, n, k, rest, j);
    DistMinus(b.m, w, s);
    DistMinus(b.m, b.delta, s);
    forall n': nat | InInterval(b, n', k) ensures Distance((n - j) * u, w * s) <= Distance(n' * u, w * s) {
      if n' > n {
        Mono(n + 1, n', u);
        Dist(n, 1, u);
        assert false;
      }
      DistMinus(n, n', u);
      var i: nat := n - n';
      assert rest + i * u == b.m * s - n' * u;
    }
  }

  // ---------------------------------------------------------------- digit generation

  const KPOW10: seq<U64> := [1, 10, 100, 1000, 10000, 100000, 1000000, 10000000, 100000000, 1000000000]

  lemma TableOfPowers()
    ensures forall k :: 0 <= k <= 9 ==> KPOW10[k] == Pow10(k)
  {
    assert Pow10(0) == 1 && Pow10(1) == 10 && Pow10(2) == 100 && Pow10(3) == 1000 && Pow10(4) == 10000;
    assert Pow10(5) == 100000 && Pow10(6) == 1000000 && Pow10(7) == 10000000 && Pow10(8) == 100000000 && Pow10(9) == 1000000000;
  }

  function CountDecimalDigit32(n: nat): (k: nat)
    ensures k <= 9
  {
    if n < 10 then 1
    else if n < 100 then 2
    else if n < 1000 then 3
    else if n < 10000 then 4
    else if n < 100000 then 5
    else if n < 1000000 then 6
    else if n < 10000000 then 7
    else if n < 100000000 then 8
    else 9
  }

  lemma DigitCount(n: nat)
    requires 1 <= n < 1000000000
    ensures var k := CountDecimalDigit32(n); 0 < k && Pow10(k - 1) <= n < Pow10(k)
  {
    TableOfPowers();
    hide Pow10;
    assert KPOW10[CountDecimalDigit32(n)] == Pow10(CountDecimalDigit32(n));
    assert KPOW10[CountDecimalDigit32(n) - 1] == Pow10(CountDecimalDigit32(n) - 1);
  }

  /** The digits in a buffer: a number without leading zeros. */
  ghost predicate Digits(t: Text) {
    |t| > 0 && AllDigits(t) && t[0] != '0' as int
  }

  /** What digit generation is to give: digits of a multiple of `10^k` in the interval, the
      closest one, where no multiple of a higher power of ten lies. Beyond the eighth decimal
      place the last digit is not rounded. */
  ghost predicate Generated(b: Bounds, t: Text, k: int, w: nat) {
    Digits(t) && InInterval(b, Decimal(t), k) && NoneAt(b, k + 1) && (k > -9 ==> Closest(b, Decimal(t), k, w))
  }

  lemma LowerLast(t: Text, j: nat)
    requires |t| > 0 && AllDigits(t) && j <= t[|t| - 1] - '0' as int
    ensures AllDigits(t[|t| - 1 := t[|t| - 1] - j])
    ensures j <= Decimal(t) && Decimal(t[|t| - 1 := t[|t| - 1] - j]) == Decimal(t) - j
  {
    assert t[|t| - 1 := t[|t| - 1] - j][..|t| - 1] == t[..|t| - 1];
  }

  /** The end of digit generation: the last digit is rounded. */
  method Finish(buffer: Buffer, delta: U64, rest: U64, unit: U64, wpw: U64, ghost b: Bounds, ghost k: int, ghost w: nat)
    requires buffer.Valid() && Digits(buffer.Written()) && w <= b.m && b.delta <= b.m
    requires Left(b, Decimal(buffer.Written()), k, rest) && NoneAt(b, k + 1)
    requires delta == b.delta * ScaleUp(k) && 0 < unit == Unit(b, k) && rest <= delta
    requires delta <= rest + (buffer.chars[buffer.p - 1] - '0' as int) * unit
    requires buffer.p == 1 ==> delta < rest + (buffer.chars[0] - '0' as int) * unit
    requires k > -9 ==> wpw == (b.m - w) * ScaleUp(k)
    modifies buffer.chars
    ensures buffer.Valid() && Generated(b, buffer.Written(), k, w)
  {
    hide Best, Left, NoneAt, InInterval, Closest, ScaleUp, Unit, Decimal;
    ghost var t := buffer.Written();
    ghost var j := GrisuRound(buffer, delta, rest, unit, wpw);
    LowerLast(t, j);
    Rounded(b, Decimal(t), k, rest, j);
    if k > -9 {
      BestIs(delta, rest, unit, wpw, j);
      RoundedClosest(b, Decimal(t), k, rest, j, w);
    }
    if |t| == 1 && j == t[0] - '0' as int { assert false; }
  }

  lemma BestIs(delta: U64, rest: U64, unit: U64, wpw: U64, j: nat)
    requires Best(delta, rest, unit, wpw, j)
    ensures forall i: nat :: rest + i * unit <= delta ==> Distance(rest + j * unit, wpw) <= Distance(rest + i * unit, wpw)
  {
  }

  lemma PutDigit(t: Text, d: nat)
    requires AllDigits(t) && d < 10
    ensures AllDigits(t + [Digit(d)]) && Decimal(t + [Digit(d)]) == 10 * Decimal(t) + d
  {
    assert (t + [Digit(d)])[..|t|] == t;
  }

  // ---------------------------------------------------------------- the integral digits

  /** The integral part so far: the digits, then `p1` with `k` digits to come, then the
      fraction `p2`. */
  ghost predicate Integral(b: Bounds, n: nat, k: nat, p1: nat, p2: nat) {
    p1 < Pow10(k) && p2 < b.one && b.m == (n * Pow10(k) + p1) * b.one + p2
  }

  lemma IntegralLeft(b: Bounds, n: nat, k: nat, p1: nat, p2: nat)
    requires Integral(b, n, k, p1, p2)
    ensures Left(b, n, k, p1 * b.one + p2) && p1 * b.one + p2 <= b.m
  {
    Dist(n * Pow10(k), p1, b.one);
    Assoc(n, Pow10(k), b.one);
    Mono(p1 + 1, Pow10(k), b.one);
    Dist(p1, 1, b.one);
    assert ScaleUp(k) == 1;
  }

  lemma IntegralStep(b: Bounds, n: nat, k: nat, p1: nat, p2: nat, d: nat, r: nat)
    requires Integral(b, n, k + 1, p1, p2) && p1 == d * Pow10(k) + r && r < Pow10(k)
    ensures d < 10 && Integral(b, 10 * n + d, k, r, p2)
    ensures p1 * b.one + p2 == d * (Pow10(k) * b.one) + (r * b.one + p2)
  {
    var q := Pow10(k);
    assert Pow10(k + 1) == 10 * q;
    hide Pow10;
    Mono(10, d, q);
    StepProduct(n, d, q, r, b.one, p1);
  }

  lemma StepProduct(n: nat, d: nat, q: nat, r: nat, one: nat, p1: nat)
    requires p1 == d * q + r
    ensures n * (10 * q) + p1 == (10 * n + d) * q + r
    ensures p1 * one == d * (q * one) + r * one
  {
    Swap(n, 10, q);
    Assoc(10, n, q);
    Dist(10 * n, d, q);
    Dist(d * q, r, one);
    Assoc(d, q, one);
  }

  /** A number with its highest digit split off. */
  lemma SplitDigit(p1: nat, q: nat)
    requires q > 0
    ensures p1 == (p1 / q) * q + p1 % q && p1 % q < q && (p1 >= q ==> p1 / q > 0)
  {
    var d := p1 / q;
    if d <= 0 { Mono(d, 0, q); }
  }

  /** Before an integral digit: what the digits so far leave is longer than the interval. */
  ghost predicate BeforeIntegral(b: Bounds, t: Text, k: nat, p1: nat, p2: nat) {
    AllDigits(t) && Integral(b, Decimal(t), k, p1, p2) && p1 * b.one + p2 > b.delta
    && if t == [] then k > 0 && p1 >= Pow10(k - 1) else Digits(t)
  }

  /** Facts about one integral digit. */
  lemma IntegralDigit(b: Bounds, t: Text, k: nat, p1: nat, p2: nat, d: nat, r: nat)
    requires BeforeIntegral(b, t, k + 1, p1, p2) && b.delta <= b.m && b.m < 0x1_0000_0000_0000_0000
    requires p1 == d * Pow10(k) + r && r < Pow10(k) && (p1 >= Pow10(k) ==> d > 0)
    ensures NoneAt(b, k + 1) && d < 10 && (t == [] ==> d > 0) && Digits(t + [Digit(d)])
    ensures
      var rest := r * b.one + p2;
      Left(b, Decimal(t + [Digit(d)]), k, rest) && rest <= b.m
      && Integral(b, Decimal(t + [Digit(d)]), k, r, p2)
      && b.delta < rest + d * Unit(b, k) && 0 < Unit(b, k) <= b.m
  {
    IntegralLeft(b, Decimal(t), k + 1, p1, p2);
    assert ScaleUp(k + 1) == 1 && b.delta * 1 == b.delta;
    hide Pow10, NoneAt, Left, Decimal;
    NeedsMore(b, Decimal(t), k + 1, p1 * b.one + p2);
    IntegralStep(b, Decimal(t), k, p1, p2, d, r);
    PutDigit(t, d);
    IntegralLeft(b, 10 * Decimal(t) + d, k, r, p2);
    UnitFits(b, 10 * Decimal(t) + d, k, r * b.one + p2, t + [Digit(d)]);
  }

  /** Digits that do not start with zero denote at least one, so the unit is below the bound. */
  lemma UnitFits(b: Bounds, n: nat, k: nat, rest: nat, t: Text)
    requires Left(b, n, k, rest) && Digits(t) && n == Decimal(t)
    ensures 0 < Unit(b, k) <= b.m
  {
    Positive(t);
    Mono(1, n, Unit(b, k));
    assert ScaleUp(k) == 1;
  }

  method IntegralDigits(m: U64, one: U64, p1_0: nat, p2: U64, delta: U64, wpw: U64, buffer: Buffer, ghost b: Bounds, ghost w: nat)
    returns (kappa: nat, done: bool)
    requires b == Bounds(m, delta, one) && 0 < one && 0 < delta < m && w <= m && wpw == m - w
    requires 1 <= p1_0 < 1000000000 && p2 < one && m == p1_0 * one + p2
    requires buffer.Valid() && buffer.Written() == [] && buffer.chars.Length >= 9
    modifies buffer, buffer.chars
    ensures buffer.Valid() && buffer.p <= 9
    ensures done ==> Generated(b, buffer.Written(), kappa, w)
    ensures !done ==> Digits(buffer.Written()) && Left(b, Decimal(buffer.Written()), 0, p2) && p2 > delta && kappa == 0
  {
    hide Left, NoneAt, Generated, Decimal, Pow10, ScaleUp, BeforeIntegral, Integral, Unit, Digits, CountDecimalDigit32;
    TableOfPowers();
    DigitCount(p1_0);
    var p1: nat := p1_0;
    kappa := CountDecimalDigit32(p1);
    FirstIntegral(b, kappa, p1, p2);
    while kappa > 0
      invariant kappa + buffer.p <= 9 && buffer.Valid() && buffer.chars.Length >= 9
      invariant BeforeIntegral(b, buffer.Written(), kappa, p1, p2)
    {
      p1 := TakeIntegral(p1, p2, kappa, buffer, b);
      kappa := kappa - 1;
      var tmp: U64 := p1 * one + p2;
      UnitIs(b, kappa, w);
      if tmp <= delta {
        var tenKappa: U64 := KPOW10[kappa] * one;
        Finish(buffer, delta, tmp, tenKappa, wpw, b, kappa, w);
        return kappa, true;
      }
      NextIntegral(b, buffer.Written(), kappa, p1, p2);
    }
    LastIntegral(b, buffer.Written(), p1, p2);
    done := false;
  }

  /** The next integral digit; a leading zero would not be written, but there is none. */
  method TakeIntegral(p1_0: nat, p2: U64, kappa: nat, buffer: Buffer, ghost b: Bounds) returns (p1: nat)
    requires 0 < kappa <= 9 && b.delta <= b.m < 0x1_0000_0000_0000_0000
    requires buffer.Valid() && kappa + buffer.p <= 9 <= buffer.chars.Length
    requires BeforeIntegral(b, buffer.Written(), kappa, p1_0, p2)
    modifies buffer, buffer.chars
    ensures buffer.Valid() && buffer.p == old(buffer.p) + 1 && Digits(buffer.Written()) && NoneAt(b, kappa)
    ensures Left(b, Decimal(buffer.Written()), kappa - 1, p1 * b.one + p2) && p1 * b.one + p2 <= b.m
    ensures Integral(b, Decimal(buffer.Written()), kappa - 1, p1, p2)
    ensures b.delta < p1 * b.one + p2 + (buffer.chars[buffer.p - 1] - '0' as int) * Unit(b, kappa - 1)
    ensures 0 < Unit(b, kappa - 1) <= b.m
  {
    TableOfPowers();
    hide Left, NoneAt, Decimal, Pow10, BeforeIntegral, Integral, Unit, Digits, Digit;
    ghost var t := buffer.Written();
    SplitDigit(p1_0, KPOW10[kappa - 1]);
    var d := p1_0 / KPOW10[kappa - 1];
    p1 := p1_0 % KPOW10[kappa - 1];
    IntegralDigit(b, t, kappa - 1, p1_0, p2, d, p1);
    DigitIs(d);
    if d != 0 || buffer.p > 0 { buffer.Put('0' as int + d); }
  }

  lemma FirstIntegral(b: Bounds, k: nat, p1: nat, p2: nat)
    requires 0 < k && Pow10(k - 1) <= p1 < Pow10(k) && p2 < b.one && b.m == p1 * b.one + p2 && b.delta < b.m
    ensures BeforeIntegral(b, [], k, p1, p2)
  {
    assert 0 * Pow10(k) == 0;
  }

  lemma NextIntegral(b: Bounds, t: Text, k: nat, p1: nat, p2: nat)
    requires Digits(t) && Integral(b, Decimal(t), k, p1, p2) && p1 * b.one + p2 > b.delta
    ensures BeforeIntegral(b, t, k, p1, p2)
  {
  }

  lemma LastIntegral(b: Bounds, t: Text, p1: nat, p2: nat)
    requires BeforeIntegral(b, t, 0, p1, p2)
    ensures Digits(t) && Left(b, Decimal(t), 0, p2) && p2 > b.delta
  {
    IntegralLeft(b, Decimal(t), 0, p1, p2);
    assert p1 == 0 && 0 * b.one == 0;
  }

  lemma UnitIs(b: Bounds, k: nat, w: nat)
    ensures Unit(b, k) == Pow10(k) * b.one && ScaleUp(k) == 1
    ensures b.delta * ScaleUp(k) == b.delta && (b.m - w) * ScaleUp(k) == b.m - w
  {
  }

  // ---------------------------------------------------------------- the fractional digits

  /** After `j` fractional digits: what is left is at least as long as the interval. */
  ghost predicate BeforeFraction(b: Bounds, t: Text, j: nat, p2: nat, delta: nat) {
    Digits(t) && Left(b, Decimal(t), 0 - j, p2) && delta == b.delta * Pow10(j) && p2 >= delta
  }

  lemma FractionDigit(b: Bounds, t: Text, j: nat, p2: nat, delta: nat, d: nat, r: nat)
    requires BeforeFraction(b, t, j, p2, delta) && b.delta <= b.m && p2 * 10 == d * b.one + r && d < 10 && r < b.one
    ensures NoneAt(b, 0 - j)
    ensures Digits(t + [Digit(d)]) && Left(b, Decimal(t + [Digit(d)]), 0 - (j + 1), r)
    ensures delta * 10 <= r + d * b.one && delta * 10 == b.delta * Pow10(j + 1)
  {
    hide NoneAt, Decimal, ScaleUp, Unit, Pow10;
    FractionUnits(b, j);
    NeedsMore(b, Decimal(t), 0 - j, p2);
    PutDigit(t, d);
    FractionLeft(b.m, Decimal(t), b.one, Pow10(j), p2, d, r);
    Swap(10, b.delta, Pow10(j));
  }

  /** Ten times what is left, split into a digit and what is left then. */
  method TakeDigit(p2_0: U64, one: U64) returns (d: nat, p2: U64)
    requires p2_0 < one <= 0x1000_0000_0000_0000
    ensures p2_0 * 10 == d * one + p2 && d < 10 && p2 < one
  {
    p2 := p2_0 * 10;
    d := p2 / one;
    p2 := p2 % one;
    Mono(10, d, one);
  }

  lemma FractionLeft(m: nat, n: nat, one: nat, p10: nat, p2: nat, d: nat, r: nat)
    requires m * p10 == n * one + p2 && p2 * 10 == d * one + r
    ensures m * (10 * p10) == (10 * n + d) * one + r
  {
    Swap(10, m, p10);
    Dist(10 * n, d, one);
    Assoc(10, n, one);
  }

  lemma FractionUnits(b: Bounds, j: nat)
    ensures ScaleUp(0 - j) == Pow10(j) && Unit(b, 0 - j) == b.one
    ensures ScaleUp(0 - (j + 1)) == Pow10(j + 1) == 10 * Pow10(j) && Unit(b, 0 - (j + 1)) == b.one
  {
    assert Pow10(0) == 1;
  }

  /** The interval outgrows the unit after at most eighteen decimal places. */
  lemma FewPlaces(delta: nat, j: nat, one: nat)
    requires 0 < delta && delta * Pow10(j) < one <= 0x1000_0000_0000_0000
    ensures j <= 18
  {
    if j >= 19 {
      Pow10Grows(19, j);
      Mono(1, delta, Pow10(j));
      TenTo19();
    }
  }

  lemma TenTo19()
    ensures Pow10(19) == 10_000_000_000_000_000_000
  {
    assert Pow10(4) == 10000;
    assert Pow10(8) == 10000 * Pow10(4);
    assert Pow10(12) == 10000 * Pow10(8);
    assert Pow10(16) == 10000 * Pow10(12);
    assert Pow10(19) == 1000 * Pow10(16);
  }

  /** The distance to the exact number, scaled like the rest for the first eight places. */
  lemma ScaledDistance(b: Bounds, w: nat, wpw: U64, j: nat)
    requires w <= b.m && wpw == b.m - w <= b.delta && b.delta * Pow10(j) < 0x1_0000_0000_0000_0000
    ensures wpw * Pow10(j) < 0x1_0000_0000_0000_0000 && wpw * Pow10(j) == (b.m - w) * ScaleUp(0 - j)
  {
    FractionUnits(b, j);
    Pow10Positive(j);
    Mono(wpw, b.delta, Pow10(j));
  }

  /** One fractional digit. Neither the rest nor the interval overflows. */
  method NextDigit(one: U64, p2_0: U64, delta_0: U64, buffer: Buffer, ghost b: Bounds, ghost j: nat) returns (p2: U64, delta: U64)
    requires b.one == one && b.delta < b.m && 0 < one <= 0x1000_0000_0000_0000 && 0 < delta_0 <= p2_0 < one
    requires buffer.Valid() && buffer.p < buffer.chars.Length && BeforeFraction(b, buffer.Written(), j, p2_0, delta_0)
    modifies buffer, buffer.chars
    ensures buffer.Valid() && buffer.p == old(buffer.p) + 1 && buffer.p > 1 && Digits(buffer.Written())
    ensures p2 < one && delta == delta_0 * 10 == b.delta * Pow10(j + 1) && NoneAt(b, 0 - j)
    ensures Left(b, Decimal(buffer.Written()), 0 - (j + 1), p2)
    ensures delta <= p2 + (buffer.chars[buffer.p - 1] - '0' as int) * one
  {
    hide Left, NoneAt, Decimal, Pow10, BeforeFraction, Digits, Digit;
    ghost var t := buffer.Written();
    var d;
    d, p2 := TakeDigit(p2_0, one);
    delta := delta_0 * 10;
    FractionDigit(b, t, j, p2_0, delta_0, d, p2);
    DigitIs(d);
    buffer.Put('0' as int + d);
    NotFirst(b, t, j, p2_0, delta_0);
  }

  method FractionalDigits(one: U64, p2_0: U64, delta_0: U64, wpw: U64, buffer: Buffer, ghost b: Bounds, ghost w: nat) returns (kappa: int)
    requires b.one == one && b.delta == delta_0 && 0 < delta_0 < b.m && w <= b.m && wpw == b.m - w <= delta_0
    requires 0 < one <= 0x1000_0000_0000_0000 && p2_0 > delta_0
    requires buffer.Valid() && Digits(buffer.Written()) && Left(b, Decimal(buffer.Written()), 0, p2_0)
    requires buffer.p + 19 <= buffer.chars.Length
    modifies buffer, buffer.chars
    ensures buffer.Valid() && Generated(b, buffer.Written(), kappa, w) && buffer.p <= old(buffer.p) + 19
  {
    hide Left, NoneAt, Generated, Decimal, Pow10, ScaleUp, BeforeFraction, Digits, Unit;
    var p2: U64, delta: U64 := p2_0, delta_0;
    kappa := 0;
    FractionStart(b, buffer.Written(), p2, delta);
    while true
      invariant -18 <= kappa <= 0 && buffer.Valid() && buffer.p == old(buffer.p) - kappa
      invariant 0 < delta <= p2 < one && BeforeFraction(b, buffer.Written(), -kappa, p2, delta)
      decreases one - delta
    {
      ghost var j: nat := -kappa;
      p2, delta := NextDigit(one, p2, delta, buffer, b, j);
      kappa := kappa - 1;
      if p2 < delta {
        FractionUnits(b, j);
        var scaled: U64 := ScaleWpw(wpw, -kappa, b, w);
        Finish(buffer, delta, p2, one, scaled, b, kappa, w);
        return;
      }
      MoreFraction(b, buffer.Written(), j + 1, p2, delta);
    }
  }

  /** The distance to the exact number, scaled like the rest up to the eighth place. */
  method ScaleWpw(wpw: U64, index: nat, ghost b: Bounds, ghost w: nat) returns (scaled: U64)
    requires w <= b.m && wpw == b.m - w <= b.delta && b.delta * Pow10(index) < 0x1_0000_0000_0000_0000
    ensures index < 9 ==> scaled == (b.m - w) * ScaleUp(0 - index)
  {
    TableOfPowers();
    hide Pow10, ScaleUp;
    ScaledDistance(b, w, wpw, index);
    scaled := if index < 9 then wpw * KPOW10[index] else 0;
  }

  lemma FractionStart(b: Bounds, t: Text, p2: nat, delta: nat)
    requires Digits(t) && Left(b, Decimal(t), 0, p2) && delta == b.delta && p2 > delta
    ensures BeforeFraction(b, t, 0, p2, delta) && p2 < b.one
  {
    assert Pow10(0) == 1;
  }

  lemma NotFirst(b: Bounds, t: Text, j: nat, p2: nat, delta: nat)
    requires BeforeFraction(b, t, j, p2, delta)
    ensures |t| > 0
  {
  }

  lemma MoreFraction(b: Bounds, t: Text, j: nat, p2: nat, delta: nat)
    requires Digits(t) && Left(b, Decimal(t), 0 - j, p2) && delta == b.delta * Pow10(j) && p2 >= delta
    requires 0 < b.delta && 0 < b.one <= 0x1000_0000_0000_0000
    ensures BeforeFraction(b, t, j, p2, delta) && p2 < b.one && j <= 18
  {
    assert Unit(b, 0 - j) == b.one by { FractionUnits(b, j); }
    hide Pow10, Decimal;
    FewPlaces(b.delta, j, b.one);
  }

  /** Generates the digits of a number within `delta` below the upper bound `m`, both in units
      of `2^-s`; `K` is the decimal exponent of the last digit. */
  method DigitGen(w: U64, m: U64, s: nat, delta: U64, buffer: Buffer) returns (K: int)
    requires 32 <= s <= 60 && 0 < delta < m && m - delta <= w <= m
    requires 1 <= m / Pow(2, s) < 1000000000
    requires buffer.Valid() && buffer.Written() == [] && buffer.chars.Length >= 28
    modifies buffer, buffer.chars
    ensures buffer.Valid() && Generated(Bounds(m, delta, Pow(2, s)), buffer.Written(), K, w)
  {
    hide Generated, Left, Decimal, Pow, Digits;
    UnitRange(s);
    var one: U64 := Pow(2, s);
    assert m == (m / one) * one + m % one;
    var wpw: U64 := m - w;
    var p1, p2: U64 := m / one, m % one;
    ghost var b := Bounds(m, delta, one);
    var done;
    K, done := IntegralDigits(m, one, p1, p2, delta, wpw, buffer, b, w);
    if !done { K := FractionalDigits(one, p2, delta, wpw, buffer, b, w); }
  }

  lemma UnitRange(s: nat)
    requires s <= 60
    ensures Pow(2, s) <= 0x1000_0000_0000_0000
  {
    PowGrows(2, s, 60);
    PowersOfTwo();
  }

}
