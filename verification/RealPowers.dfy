/** Real numbers to integer powers. */
module RealPowers {
  import opened Arith

  /** `x` to an integer power. */
  ghost function RealPow(x: real, e: int): (r: real)
    requires x > 0.0
    ensures r > 0.0
    decreases if e < 0 then -e else e
  {
    if e == 0 then 1.0
    else if e > 0 then Positive(x, RealPow(x, e - 1)); x * RealPow(x, e - 1)
    else PositiveRatio(RealPow(x, e + 1), x); RealPow(x, e + 1) / x
  }

  lemma Positive(x: real, y: real)
    ensures x > 0.0 && y > 0.0 ==> x * y > 0.0
  {
  }

  lemma PositiveRatio(x: real, y: real)
    ensures x > 0.0 && y > 0.0 ==> x / y > 0.0
  {
  }

  lemma RealPowStep(x: real, e: int)
    requires x > 0.0
    ensures RealPow(x, e + 1) == x * RealPow(x, e)
  {
    if e < 0 {
      var r := RealPow(x, e + 1);
      assert RealPow(x, e) == r / x;
      Cancel(r, x);
    }
  }

  lemma Cancel(r: real, x: real)
    requires x > 0.0
    ensures x * (r / x) == r
  {
  }

  lemma RealAssoc(x: real, y: real, z: real)
    ensures x * (y * z) == (x * y) * z && x * (y * z) == y * (x * z)
  {
  }

  lemma {:induction false} RealPowAdd(x: real, e: int, f: int)
    requires x > 0.0
    ensures RealPow(x, e + f) == RealPow(x, e) * RealPow(x, f)
    decreases if f < 0 then -f else f
  {
    hide RealPow;
    if f == 0 {
      RealPowZero(x);
    } else if f > 0 {
      RealPowAdd(x, e, f - 1);
      RealPowStep(x, e + f - 1);
      RealPowStep(x, f - 1);
      StepUp(x, RealPow(x, e + f - 1), RealPow(x, e), RealPow(x, f - 1));
    } else {
      RealPowAdd(x, e, f + 1);
      RealPowStep(x, e + f);
      RealPowStep(x, f);
      StepDown(x, RealPow(x, e + f), RealPow(x, e), RealPow(x, f));
    }
  }

  lemma RealPowZero(x: real)
    requires x > 0.0
    ensures RealPow(x, 0) == 1.0
  {
  }

  lemma StepUp(x: real, y: real, re: real, rf: real)
    requires y == re * rf
    ensures x * y == re * (x * rf)
  {
  }

  lemma StepDown(x: real, y: real, re: real, rf: real)
    requires x > 0.0 && x * y == re * (x * rf)
    ensures y == re * rf
  {
    assert x * y == x * (re * rf);
  }

  lemma {:induction false} RealPowNat(b: nat, e: nat)
    requires b > 0
    ensures RealPow(b as real, e) == Pow(b, e) as real
  {
    if e > 0 { RealPowNat(b, e - 1); }
  }
}
