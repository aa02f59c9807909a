/** Big integers from decimal text. */
module BigDecimal {
  import opened Arith
  import opened Bytes
  import opened Numerals
  import opened BigNatural
  import opened BigInteger

  lemma {:induction false} Pow10Is(k: nat)
    ensures Pow10(k) == Pow(10, k) == Pow(5, k) * Pow(2, k)
  {
    PowTimes(5, 2, k);
    if k > 0 { Pow10Is(k - 1); }
  }

  lemma {:induction false} DecimalAppend(a: Text, b: Text)
    requires AllDigits(a) && AllDigits(b)
    ensures AllDigits(a + b) && Decimal(a + b) == Decimal(a) * Pow10(|b|) + Decimal(b)
    decreases |b|
  {
    if b == [] {
      assert a + b == a;
    } else {
      var n := |b| - 1;
      assert (a + b)[..|a| + n] == a + b[..n];
      DecimalAppend(a, b[..n]);
      Dist(Decimal(a) * Pow10(n), Decimal(b[..n]), 10);
      Swap(10, Decimal(a), Pow10(n));
    }
  }

  /** Nineteen digits fit a limb. */
  lemma NineteenDigits(ds: Text)
    requires AllDigits(ds) && |ds| <= 19
    ensures Decimal(ds) < B
  {
    DecimalBound(ds);
    Pow10Grows(|ds|, 19);
    assert Pow10(4) == 10000;
    assert Pow10(8) == 10000 * Pow10(4);
    assert Pow10(12) == 10000 * Pow10(8);
    assert Pow10(16) == 10000 * Pow10(12);
    assert Pow10(19) == 1000 * Pow10(16);
  }

  /** At most nineteen digits. */
  method ParseUint64(ds: Text) returns (r: Limb)
    requires AllDigits(ds) && |ds| <= 19
    ensures r == Decimal(ds)
  {
    r := 0;
    assert ds[..0] == [];
    for i := 0 to |ds|
      invariant AllDigits(ds[..i]) && r == Decimal(ds[..i])
    {
      assert ds[..i + 1][..i] == ds[..i];
      NineteenDigits(ds[..i + 1]);
      r := r * 10 + (ds[i] - '0' as int);
    }
    assert ds[..|ds|] == ds;
  }

  /** What the steps of an append need and give. */
  lemma AppendSteps(v: nat, k: nat, u: nat, n: nat)
    requires v * Pow10(k) + u < W(n)
    ensures (v * Pow(5, k)) * Pow(2, k) == v * Pow10(k)
    ensures v * Pow(5, k) <= v * Pow10(k)
    ensures Pow10(k) > 0
  {
    Pow10Is(k);
    Assoc(v, Pow(5, k), Pow(2, k));
    Mono(1, Pow(2, k), v * Pow(5, k));
  }

  /** Appends up to nineteen digits: the number times a power of ten, plus the digits. The
      number times the power of five must leave a limb free. */
  method AppendDecimal64(n: BigInteger, ds: Text)
    requires n.Valid() && AllDigits(ds) && 0 < |ds| <= 19
    requires n.Val() * Pow(5, |ds|) < W(CAPACITY - 1)
    modifies n, n.digits
    ensures n.Valid() && n.Val() == old(n.Val()) * Pow10(|ds|) + Decimal(ds)
  {
    hide Value, W, Pow, Pow10, Normal, Decimal, ShiftResult, ShiftExact;
    var u := ParseUint64(ds);
    OneLimb(u);
    if n.IsZero() {
      assert n.Limbs() == [0];
      OneLimb(0);
      ZeroTimes(Pow10(|ds|));
      n.Assign(u);
    } else {
      var exp := |ds|;
      ghost var v := n.Val();
      AppendFits(v, exp, u);
      n.MultiplyPow5(exp);
      LeavesLimb(n.Limbs(), exp);
      ShiftSafe(n.digits[..], n.count, exp);
      ghost var written := n.ShiftLeft(exp);
      n.AddAssign(u);
    }
  }

  /** If the product by the power of five leaves a limb free, everything else fits. */
  lemma AppendFits(v: nat, k: nat, u: Limb)
    requires v * Pow(5, k) < W(CAPACITY - 1) && 0 < k <= 19
    ensures (v * Pow(5, k)) * Pow(2, k) == v * Pow10(k)
    ensures v * Pow(5, k) < W(CAPACITY) && v * Pow10(k) + u < W(CAPACITY)
  {
    hide W, Pow, Pow10;
    Pow10Is(k);
    Assoc(v, Pow(5, k), Pow(2, k));
    PowGrows(2, k, 19);
    Nineteen();
    WeightGrows(1, CAPACITY - 1);
    RoomForDigits(v * Pow(5, k), Pow(2, k), W(CAPACITY - 1), u);
  }

  lemma Nineteen()
    ensures Pow(2, 19) == 0x8_0000 && W(1) == B && W(CAPACITY) == B * W(CAPACITY - 1)
  {
    assert W(1) == B * W(0);
    SmallPowersOfTwo();
    PowAdd(2, 8, 8);
    PowAdd(2, 16, 3);
  }

  lemma RoomForDigits(x: nat, p: nat, w: nat, u: Limb)
    requires x < w && B <= w && p <= 0x8_0000
    ensures x * p + u < B * w
  {
    Mono(p, 0x8_0000, x);
    Mono(x, w - 1, 0x8_0000);
  }

  /** The shift that follows, by less than a limb, has room exactly when the number leaves a
      limb free. */
  lemma LeavesLimb(ds: seq<Limb>, k: nat)
    requires Normal(ds) && 0 < k < 64
    ensures Fits(|ds|, k) <==> Value(ds) < W(CAPACITY - 1)
  {
    hide W, Value;
    ValueBound(ds);
    if |ds| < CAPACITY {
      WeightGrows(|ds|, CAPACITY - 1);
    } else {
      NormalLarge(ds);
      WeightGrows(CAPACITY - 1, |ds| - 1);
    }
  }

  /** The digits appended so far never exceed the whole number. */
  lemma PrefixFits(ds: Text, i: nat, j: nat)
    requires i <= j <= |ds| && AllDigits(ds)
    ensures AllDigits(ds[..i]) && AllDigits(ds[i..j]) && AllDigits(ds[..j])
    ensures Decimal(ds[..j]) == Decimal(ds[..i]) * Pow10(j - i) + Decimal(ds[i..j])
    ensures Decimal(ds[..j]) <= Decimal(ds)
  {
    assert ds[..j] == ds[..i] + ds[i..j];
    DecimalAppend(ds[..i], ds[i..j]);
    assert ds == ds[..j] + ds[j..];
    DecimalAppend(ds[..j], ds[j..]);
    Pow10Grows(0, |ds| - j);
    Mono(1, Pow10(|ds| - j), Decimal(ds[..j]));
  }

  /** The number of digits that the last append takes. */
  function LastChunk(n: nat): (k: nat)
    requires n > 0
    ensures 0 < k <= 19 && k <= n && (n - k) % 19 == 0
  {
    if n % 19 == 0 then 19 else n % 19
  }

  /** The digits before the last append, times the power of five of that append, leave a limb
      free. */
  predicate DigitsFit(ds: Text)
    requires |ds| > 0 && AllDigits(ds)
  {
    var k := LastChunk(|ds|);
    Decimal(ds[..|ds| - k]) * Pow(5, k) < W(CAPACITY - 1)
  }

  /** If the last append has room, the ones before it have. */
  lemma EarlierFits(ds: Text, i: nat, k: nat)
    requires |ds| > 0 && AllDigits(ds) && DigitsFit(ds) && i % 19 == 0
    requires (i + k == |ds| && 0 < k < 19) || (k == 19 && i + 19 <= |ds|)
    ensures AllDigits(ds[..i]) && Decimal(ds[..i]) * Pow(5, k) < W(CAPACITY - 1)
  {
    hide W, Pow, Pow10, Decimal;
    var last := LastChunk(|ds|);
    var m := |ds| - last;
    if i < m {
      ChunkBefore(i, m);
      Prefixed(ds, i, i + 19);
      PrefixFits(ds[..m], i, i + 19);
      assert ds[..m][..i] == ds[..i] && ds[..m][..i + 19] == ds[..i + 19];
      Pow10Is(19);
      Mono(1, Pow(2, 19), Pow(5, 19));
      Mono(Pow(5, 19), Pow10(19), Decimal(ds[..i]));
      Mono(1, Pow(5, last), Decimal(ds[..m]));
    } else {
      LastIs(|ds|, i, k);
    }
  }

  lemma Prefixed(ds: Text, i: nat, j: nat)
    requires i <= j <= |ds| && AllDigits(ds)
    ensures AllDigits(ds[..i]) && AllDigits(ds[..j])
  {
  }

  lemma ChunkBefore(i: nat, m: nat)
    requires i % 19 == 0 && m % 19 == 0 && i < m
    ensures i + 19 <= m
  {
  }

  lemma LastIs(n: nat, i: nat, k: nat)
    requires n > 0 && i % 19 == 0 && n - LastChunk(n) <= i
    requires (i + k == n && 0 < k < 19) || (k == 19 && i + 19 <= n)
    ensures i == n - LastChunk(n) && k == LastChunk(n)
  {
  }

  /** One append: the digits from `i` on, `k` of them. */
  method AppendChunk(n: BigInteger, decimals: Text, i: nat, k: nat)
    requires n.Valid() && |decimals| > 0 && AllDigits(decimals) && DigitsFit(decimals) && i % 19 == 0
    requires (i + k == |decimals| && 0 < k < 19) || (k == 19 && i + 19 <= |decimals|)
    requires AllDigits(decimals[..i]) && n.Val() == Decimal(decimals[..i])
    modifies n, n.digits
    ensures n.Valid() && AllDigits(decimals[..i + k]) && n.Val() == Decimal(decimals[..i + k])
  {
    hide Value, W, Pow, Pow10, Normal, DigitsFit, Decimal;
    PrefixFits(decimals, i, i + k);
    EarlierFits(decimals, i, k);
    AppendDecimal64(n, decimals[i..i + k]);
  }

  /** The number of a digit string. */
  method FromDecimals(decimals: Text) returns (n: BigInteger)
    requires |decimals| > 0 && AllDigits(decimals) && DigitsFit(decimals)
    ensures n.Valid() && fresh(n) && fresh(n.digits) && n.Val() == Decimal(decimals)
  {
    hide Value, W, Pow, Pow10, Normal, DigitsFit;
    n := new BigInteger(0);
    OneLimb(0);
    assert decimals[..0] == [];
    var length: nat, i: nat := |decimals|, 0;
    while length >= 19
      invariant i + length == |decimals| && i % 19 == 0
      invariant n.Valid() && fresh(n) && fresh(n.digits) && AllDigits(decimals[..i]) && n.Val() == Decimal(decimals[..i])
    {
      AppendChunk(n, decimals, i, 19);
      length := length - 19;
      i := i + 19;
    }
    if length > 0 { AppendChunk(n, decimals, i, length); }
    assert decimals[..|decimals|] == decimals;
  }

  /** The condition is necessary. If it fails, the number before the last shift fills the whole
      array, and the shift writes outside it. */
  lemma TooLongOverruns(decimals: Text, ds: seq<Limb>)
    requires |decimals| > 0 && AllDigits(decimals) && Normal(ds)
    requires var k := LastChunk(|decimals|); Value(ds) == Decimal(decimals[..|decimals| - k]) * Pow(5, k)
    ensures DigitsFit(decimals) <==> forall k <- ShiftWrites(|ds|, LastChunk(|decimals|)) :: k < CAPACITY
  {
    LeavesLimb(ds, LastChunk(|decimals|));
    FitsExactly(|ds|, LastChunk(|decimals|));
  }

  /** A number that fills the array may not be followed by another append. */
  lemma NoRoom(ds: Text, i: nat)
    requires |ds| > 0 && AllDigits(ds) && i <= |ds| - LastChunk(|ds|) && AllDigits(ds[..i])
    requires Decimal(ds[..i]) >= W(CAPACITY - 1)
    ensures !DigitsFit(ds)
  {
    hide W, Pow, Pow10, Decimal;
    var k := LastChunk(|ds|);
    var m := |ds| - k;
    PrefixFits(ds[..m], i, i);
    assert ds[..m][..i] == ds[..i];
    Mono(1, Pow(5, k), Decimal(ds[..m]));
  }

  /** There are digit strings that do not fit. */
  lemma SomeTooLong() returns (decimals: Text)
    ensures |decimals| > 0 && AllDigits(decimals) && !DigitsFit(decimals)
  {
    hide W, Pow, Pow10, Decimal, DecimalText, DigitsFit;
    var head := DecimalText(W(CAPACITY - 1));
    DecimalOfText(W(CAPACITY - 1));
    decimals := head + seq(19, i => '0' as int);
    assert decimals[..|head|] == head;
    NoRoom(decimals, |head|);
  }
}
