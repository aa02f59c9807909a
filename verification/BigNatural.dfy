/** Natural numbers as sequences of 64-bit limbs, least significant first. */
module BigNatural {
  import opened Arith

  const B: nat := 0x1_0000_0000_0000_0000

  type Limb = U64

  /** The weight of the limb at `i`. */
  function W(i: nat): (w: nat)
    ensures w > 0
  {
    if i == 0 then 1 else B * W(i - 1)
  }

  function Value(ds: seq<Limb>): nat {
    if ds == [] then 0 else Value(ds[..|ds| - 1]) + ds[|ds| - 1] * W(|ds| - 1)
  }

  lemma ValuePush(ds: seq<Limb>, d: Limb)
    ensures Value(ds + [d]) == Value(ds) + d * W(|ds|)
  {
    assert (ds + [d])[..|ds|] == ds;
  }

  lemma ValuePrefix(ds: seq<Limb>, i: nat)
    requires i < |ds|
    ensures Value(ds[..i + 1]) == Value(ds[..i]) + ds[i] * W(i)
  {
    assert ds[..i + 1] == ds[..i] + [ds[i]];
    ValuePush(ds[..i], ds[i]);
  }

  lemma {:induction false} ValueBound(ds: seq<Limb>)
    ensures Value(ds) < W(|ds|)
    decreases |ds|
  {
    if ds != [] {
      var n := |ds| - 1;
      ValueBound(ds[..n]);
      Mono(ds[n], B - 1, W(n));
      DistMinus(B, 1, W(n));
    }
  }

  lemma {:induction false} ValueUpdate(ds: seq<Limb>, i: nat, d: Limb)
    requires i < |ds|
    ensures Value(ds[i := d]) == Value(ds) + (d - ds[i]) * W(i)
    decreases |ds|
  {
    var n := |ds| - 1;
    if i == n {
      assert ds[i := d][..n] == ds[..n];
      DistMinus(d, ds[i], W(i));
    } else {
      assert ds[i := d][..n] == ds[..n][i := d];
      ValueUpdate(ds[..n], i, d);
    }
  }

  lemma {:induction false} WeightAdd(i: nat, j: nat)
    ensures W(i + j) == W(i) * W(j)
    decreases j
  {
    if j > 0 {
      WeightAdd(i, j - 1);
      Swap(B, W(i), W(j - 1));
    }
  }

  lemma {:induction false} WeightGrows(i: nat, j: nat)
    requires i <= j
    ensures W(i) <= W(j) && (i < j ==> B * W(i) <= W(j))
    decreases j
  {
    if i < j {
      WeightGrows(i, j - 1);
      Mono(1, B, W(j - 1));
      Mono(W(i), W(j - 1), B);
    }
  }

  lemma OneLimb(u: Limb)
    ensures Value([u]) == u
  {
    assert [u][..0] == [];
    assert u * W(0) == u;
  }

  // ---------------------------------------------------------------- normal forms

  /** At least one limb, and no leading zero limb. */
  predicate Normal(ds: seq<Limb>) {
    |ds| > 0 && (|ds| > 1 ==> ds[|ds| - 1] != 0)
  }

  /** A number of several limbs is at least the weight of its highest one. */
  lemma NormalLarge(ds: seq<Limb>)
    requires Normal(ds) && |ds| > 1
    ensures Value(ds) >= W(|ds| - 1)
  {
    var n := |ds| - 1;
    Mono(1, ds[n], W(n));
  }

  /** In normal form, a number below a weight has no more limbs. */
  lemma NormalCount(ds: seq<Limb>, k: nat)
    requires Normal(ds) && Value(ds) < W(k) && k > 0
    ensures |ds| <= k
  {
    if |ds| > k {
      NormalLarge(ds);
      WeightGrows(k, |ds| - 1);
      assert false;
    }
  }

  /** The highest limb in which two numbers differ decides which is smaller. */
  lemma {:induction false} HigherDecides(a: seq<Limb>, b: seq<Limb>, k: nat)
    requires |a| == |b| && k < |a| && a[k] < b[k] && a[k + 1..] == b[k + 1..]
    ensures Value(a) < Value(b)
    decreases |a|
  {
    var n := |a| - 1;
    if k == n {
      ValueBound(a[..n]);
      Mono(a[n] + 1, b[n], W(n));
      Dist(a[n], 1, W(n));
    } else {
      assert a[n] == a[k + 1..][n - k - 1] == b[n];
      assert a[..n][k + 1..] == a[k + 1..][..n - k - 1] == b[..n][k + 1..];
      HigherDecides(a[..n], b[..n], k);
    }
  }

  lemma FewerLimbs(a: seq<Limb>, b: seq<Limb>)
    requires Normal(a) && Normal(b) && |a| < |b|
    ensures Value(a) < Value(b)
  {
    ValueBound(a);
    NormalLarge(b);
    WeightGrows(|a|, |b| - 1);
  }

  function Sign(n: int): int {
    if n < 0 then -1 else if n > 0 then 1 else 0
  }

  // ---------------------------------------------------------------- powers

  lemma {:induction false} WeightIsPow(i: nat)
    ensures W(i) == Pow(2, 64 * i)
  {
    if i > 0 {
      WeightIsPow(i - 1);
      PowAdd(2, 64, 64 * (i - 1));
      PowersOfTwo();
    }
  }

  // ---------------------------------------------------------------- carries

  /** A limb plus `x`, with its carry. */
  lemma AddStep(ds: seq<Limb>, i: nat, x: Limb)
    requires i < |ds|
    ensures
      var d: Limb := (ds[i] + x) % B;
      Value(ds[i := d]) + (if d < ds[i] then W(i + 1) else 0) == Value(ds) + x * W(i)
      && (d < ds[i] <==> ds[i] + x >= B)
  {
    var d: Limb := (ds[i] + x) % B;
    var carry := if ds[i] + x >= B then 1 else 0;
    assert d == ds[i] + x - carry * B;
    ValueUpdate(ds, i, d);
    assert d - ds[i] == x - carry * B;
    DistMinus(x, carry * B, W(i));
    Assoc(carry, B, W(i));
  }

  /** One step of a multiplication by `u`. */
  lemma MulStep(ds: seq<Limb>, es: seq<Limb>, i: nat, u: nat, k: nat, lo: Limb, hi: nat)
    requires i < |ds| && |es| == i
    requires Value(es) + k * W(i) == u * Value(ds[..i])
    requires lo + hi * B == ds[i] * u + k
    ensures Value(es + [lo]) + hi * W(i + 1) == u * Value(ds[..i + 1])
  {
    var w, d := W(i), ds[i];
    ValuePush(es, lo);
    ValuePrefix(ds, i);
    Assoc(hi, B, w);
    Dist(lo, hi * B, w);
    Dist(d * u, k, w);
    Dist(Value(ds[..i]), d * w, u);
    assert (d * u) * w == u * (d * w) by {
      Assoc(u, d, w);
    }
  }

  lemma TopNonzero(ds: seq<Limb>)
    requires |ds| > 1 && Value(ds) >= W(|ds| - 1)
    ensures ds[|ds| - 1] != 0
  {
    ValueBound(ds[..|ds| - 1]);
  }

  /** A number above the weight of its limb count does not fit the capacity. */
  lemma CountBelow(k: nat, n: nat)
    requires W(k) < W(n)
    ensures k < n
  {
    if k >= n { WeightGrows(n, k); }
  }
}
