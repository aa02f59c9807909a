/** The subtraction of big integers limb by limb, with the borrow as the code computes it. */
module BigDifference {
  import opened Arith
  import opened BigNatural

  /** One limb of a difference, modulo 2^64, and the borrow that the code derives from it. */
  function Limbwise(x: Limb, y: Limb, borrow: Limb): (r: (Limb, Limb))
    requires borrow <= 1
    ensures r.1 <= 1
  {
    var d := (x - borrow - y) % B;
    (d, if d > x then 1 else 0)
  }

  /** The step is exact unless a borrow meets a limb of all ones, where it is lost. */
  lemma LimbwiseStep(x: Limb, y: Limb, borrow: Limb)
    requires borrow <= 1
    ensures
      var (d, next) := Limbwise(x, y, borrow);
      d + y + borrow == x + (if borrow == 1 && y == B - 1 then 1 else next) * B
      && (borrow == 1 && y == B - 1 ==> next == 0)
  {
  }

  /** The borrow that the code carries into limb `k`. */
  function CodeBorrow(a: seq<Limb>, b: seq<Limb>, k: nat): (r: Limb)
    requires |a| == |b| && k <= |a|
    ensures r <= 1
  {
    if k == 0 then 0 else Limbwise(a[k - 1], b[k - 1], CodeBorrow(a, b, k - 1)).1
  }

  /** What the borrows lost in the first `k` limbs add to the difference. */
  function Surplus(a: seq<Limb>, b: seq<Limb>, k: nat): nat
    requires |a| == |b| && k <= |a|
  {
    if k == 0 then 0
    else Surplus(a, b, k - 1) + if CodeBorrow(a, b, k - 1) == 1 && b[k - 1] == B - 1 then W(k) else 0
  }

  /** A limb of the smaller number that a borrow reaches and that is all ones. */
  ghost predicate Lost(a: seq<Limb>, b: seq<Limb>, i: nat)
    requires |a| == |b|
  {
    i < |b| && b[i] == B - 1 && Value(a[..i]) < Value(b[..i])
  }

  ghost predicate LostBefore(a: seq<Limb>, b: seq<Limb>, k: nat)
    requires |a| == |b|
  {
    exists i :: 0 <= i < k && Lost(a, b, i)
  }

  /** After `k` limbs: the difference so far, the borrow, and what lost borrows have added. */
  ghost predicate Partial(a: seq<Limb>, b: seq<Limb>, out: seq<Limb>, borrow: Limb)
    requires |a| == |b| && |out| <= |a|
  {
    var k := |out|;
    borrow == CodeBorrow(a, b, k)
    && Value(out) + Value(b[..k]) == Value(a[..k]) + borrow * W(k) + Surplus(a, b, k)
    && (Surplus(a, b, k) == 0 <==> !LostBefore(a, b, k))
  }

  lemma PartialStart(a: seq<Limb>, b: seq<Limb>)
    requires |a| == |b|
    ensures Partial(a, b, [], 0)
  {
    assert a[..0] == [] && b[..0] == [];
    WeightTimes(0, 0);
  }

  lemma WeightTimes(x: int, k: nat)
    ensures 0 * W(k) == 0 && 1 * W(k) == W(k)
  {
  }

  lemma PartialBorrow(a: seq<Limb>, b: seq<Limb>, out: seq<Limb>, borrow: Limb)
    requires |a| == |b| && |out| <= |a| && Partial(a, b, out, borrow) && Surplus(a, b, |out|) == 0
    ensures borrow == 1 <==> Value(a[..|out|]) < Value(b[..|out|])
  {
    ValueBound(out);
    NoOrOne(borrow, W(|out|));
  }

  lemma LostNext(a: seq<Limb>, b: seq<Limb>, k: nat)
    requires |a| == |b| && k < |a|
    ensures LostBefore(a, b, k + 1) <==> LostBefore(a, b, k) || Lost(a, b, k)
  {
    if Lost(a, b, k) { assert 0 <= k < k + 1; }
  }

  lemma SurplusNext(a: seq<Limb>, b: seq<Limb>, k: nat, borrow: Limb)
    requires |a| == |b| && k < |a| && borrow == CodeBorrow(a, b, k)
    ensures CodeBorrow(a, b, k + 1) == Limbwise(a[k], b[k], borrow).1
    ensures Surplus(a, b, k + 1) == Surplus(a, b, k) + if borrow == 1 && b[k] == B - 1 then W(k + 1) else 0
  {
  }

  /** One more limb. */
  lemma PartialStep(a: seq<Limb>, b: seq<Limb>, out: seq<Limb>, borrow: Limb)
    requires |a| == |b| && |out| < |a| && Partial(a, b, out, borrow)
    ensures
      var (d, next) := Limbwise(a[|out|], b[|out|], borrow);
      Partial(a, b, out + [d], next)
  {
    var k := |out|;
    var x, y := a[k], b[k];
    var d: Limb, next: Limb := Limbwise(x, y, borrow).0, Limbwise(x, y, borrow).1;
    var carry := if borrow == 1 && y == B - 1 then 1 else next;
    LimbwiseStep(x, y, borrow);
    LostNext(a, b, k);
    SurplusNext(a, b, k, borrow);
    if Surplus(a, b, k) == 0 { PartialBorrow(a, b, out, borrow); }
    ValuePush(out, d);
    ValuePrefix(a, k);
    ValuePrefix(b, k);
    hide Value, Limbwise, LostBefore, W, Surplus, CodeBorrow;
    NoOrOne(carry - next, W(k + 1));
    StepSum(d, y, borrow, x, carry, next, k);
  }

  /** A step that is exact on one limb is exact at the weight of the limb. */
  lemma StepSum(d: Limb, y: Limb, borrow: Limb, x: Limb, carry: Limb, next: Limb, k: nat)
    requires d + y + borrow == x + carry * B
    ensures d * W(k) + y * W(k) + borrow * W(k) == x * W(k) + next * W(k + 1) + (carry - next) * W(k + 1)
  {
    var w := W(k);
    Dist(d, y, w);
    Dist(d + y, borrow, w);
    Dist(x, carry * B, w);
    Assoc(carry, B, w);
    DistMinus(carry, next, W(k + 1));
  }

  /** At the end the surplus is the whole error. */
  lemma PartialEnd(a: seq<Limb>, b: seq<Limb>, out: seq<Limb>, borrow: Limb)
    requires |a| == |b| == |out| && Partial(a, b, out, borrow) && Value(b) < Value(a)
    ensures Value(out) == Value(a) - Value(b) + Surplus(a, b, |a|)
    ensures Value(out) == Value(a) - Value(b) <==> !LostBefore(a, b, |a|)
    ensures Value(out) > 0
  {
    assert a[..|a|] == a && b[..|b|] == b;
    ValueBound(out);
    WeightTimes(0, |a|);
    NoOrOne(borrow, W(|a|));
  }

  lemma NoOrOne(borrow: Limb, w: nat)
    requires borrow <= 1
    ensures borrow * w == if borrow == 0 then 0 else w
  {
    if borrow == 0 { assert 0 * w == 0; } else { assert borrow == 1; }
  }

  /** The smaller number with zero limbs above it. */
  function Extended(b: seq<Limb>, n: nat): (p: seq<Limb>)
    requires |b| <= n
    ensures |p| == n
  {
    seq(n, i requires 0 <= i < n => if i < |b| then b[i] else 0)
  }

  lemma {:induction false} ExtendedValue(b: seq<Limb>, n: nat)
    requires |b| <= n
    ensures Value(Extended(b, n)) == Value(b)
    decreases n
  {
    if |b| == n {
      assert Extended(b, n) == b;
    } else {
      assert Extended(b, n)[..n - 1] == Extended(b, n - 1);
      ExtendedValue(b, n - 1);
    }
  }

  /** Zero limbs at the top do not count. */
  lemma {:induction false} LeadingZeros(ds: seq<Limb>, k: nat)
    requires k <= |ds| && forall i :: k <= i < |ds| ==> ds[i] == 0
    ensures Value(ds) == Value(ds[..k])
    decreases |ds|
  {
    if k == |ds| {
      assert ds[..k] == ds;
    } else {
      LeadingZeros(ds[..|ds| - 1], k);
      assert ds[..|ds| - 1][..k] == ds[..k];
    }
  }

  /** Whether subtracting `b` from the larger `a` loses a borrow. */
  ghost predicate BorrowLost(a: seq<Limb>, b: seq<Limb>) {
    |b| <= |a| && LostBefore(a, Extended(b, |a|), |a|)
  }

  /** What subtracting `b` from the larger `a` gives too much. */
  function TooMuch(a: seq<Limb>, b: seq<Limb>): nat
    requires |b| <= |a|
  {
    Surplus(a, Extended(b, |a|), |a|)
  }

  /** 2^128 minus 2^64 - 1 + 2^64 * (2^64 - 1), in limbs: the borrow into the second limb, all
      ones, is lost. */
  lemma AllOnesLimbLosesBorrow()
    ensures BorrowLost([0, 0, 1], [1, B - 1])
  {
    var a: seq<Limb>, b: seq<Limb> := [0, 0, 1], [1, B - 1];
    var pb := Extended(b, 3);
    assert pb == [1, B - 1, 0];
    assert a[..1] == [0] && pb[..1] == [1];
    OneLimb(0);
    OneLimb(1);
    assert Lost(a, pb, 1);
  }

  lemma BorrowLostIs(a: seq<Limb>, b: seq<Limb>)
    requires |b| <= |a|
    ensures BorrowLost(a, b) <==> LostBefore(a, Extended(b, |a|), |a|)
  {
  }

  lemma TopStart()
    ensures AllZero([])
  {
  }

  lemma NoMoreLimbs(b: seq<Limb>, a: seq<Limb>)
    requires Normal(a) && Normal(b) && Value(b) < Value(a)
    ensures |b| <= |a|
  {
    if |a| < |b| { FewerLimbs(a, b); }
  }

  lemma ExtendedLimb(b: seq<Limb>, n: nat, i: nat)
    requires |b| <= n && i < n
    ensures Extended(b, n)[i] == if i < |b| then b[i] else 0
  {
  }

  /** The code subtracts the borrow and the limb one after the other. */
  lemma LimbwiseIs(x: Limb, y: Limb, borrow: Limb, d: Limb)
    requires borrow <= 1
    requires d == ((x - borrow) % B - y) % B || (y == 0 && d == (x - borrow) % B)
    ensures Limbwise(x, y, borrow) == (d, if d > x then 1 else 0)
  {
  }

  predicate AllZero(ds: seq<Limb>) {
    forall i :: 0 <= i < |ds| ==> ds[i] == 0
  }

  /** The highest limb that is not zero is the one below `c`. */
  predicate TopOf(ds: seq<Limb>, c: nat) {
    0 < c <= |ds| && ds[c - 1] != 0 && forall i :: c <= i < |ds| ==> ds[i] == 0
  }

  lemma TopPush(ds: seq<Limb>, d: Limb, c: nat)
    requires AllZero(ds) || TopOf(ds, c)
    ensures AllZero(ds + [d]) || TopOf(ds + [d], if d != 0 then |ds| + 1 else c)
  {
  }

  lemma TopIs(ds: seq<Limb>, c: nat)
    requires Value(ds) > 0 && (AllZero(ds) || TopOf(ds, c))
    ensures 0 < c <= |ds| && Value(ds[..c]) == Value(ds) && Normal(ds[..c])
  {
    assert ds[..0] == [];
    LeadingZeros(ds, if AllZero(ds) then 0 else c);
  }

  /** The error of a subtraction is none exactly when no borrow is lost. */
  lemma SurplusIs(a: seq<Limb>, b: seq<Limb>)
    requires |b| <= |a|
    ensures TooMuch(a, b) == 0 <==> !BorrowLost(a, b)
  {
    var out := SurplusLost(a, Extended(b, |a|), |a|);
  }

  lemma {:induction false} SurplusLost(a: seq<Limb>, b: seq<Limb>, k: nat) returns (out: seq<Limb>)
    requires |a| == |b| && k <= |a|
    ensures |out| == k && Partial(a, b, out, CodeBorrow(a, b, k))
    ensures Surplus(a, b, k) == 0 <==> !LostBefore(a, b, k)
  {
    hide Value, W, LostBefore, Limbwise;
    if k == 0 {
      out := [];
      PartialStart(a, b);
    } else {
      var init := SurplusLost(a, b, k - 1);
      var borrow := CodeBorrow(a, b, k - 1);
      PartialStep(a, b, init, borrow);
      out := init + [Limbwise(a[k - 1], b[k - 1], borrow).0];
    }
  }
}
