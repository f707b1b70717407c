/** misestimateRatio of web/plan_vm.go, in float64 arithmetic, and when it reaches 10. */
module Misestimate {
  import opened MachineInt
  import opened Float64

  /** float64(x), clamped up to 1. Conversion keeps the sign, so only x < 1 gives a value below 1. */
  function Clamped(x: int64): (f: nat)
    ensures f >= ONE
  {
    if x < 1 then ONE
    else
      RoundIsRepresentable(x, 1);
      Round(x, 1)
  }

  /** The larger of plan/actual and actual/plan, each count clamped up to 1. */
  function MisestimateRatio(plan: int64, actual: int64): (f: nat) {
    var p, a := Clamped(plan), Clamped(actual);
    if a > p then Round(a, p) else Round(p, a)
  }

  predicate IsMisestimate(plan: int64, actual: int64) {
    MisestimateRatio(plan, actual) >= TEN
  }

  /** The ratio does not depend on which count is the estimate, and is at least 1. */
  lemma RatioSymmetric(plan: int64, actual: int64)
    ensures MisestimateRatio(plan, actual) == MisestimateRatio(actual, plan) >= ONE
  {
    var p, a := Clamped(plan), Clamped(actual);
    if a > p {
      RoundIsRepresentable(a, p);
    } else {
      RoundIsRepresentable(p, a);
    }
  }

  /** The flag, for every pair of counts: the larger float is at least 10 - 2^-50 times the smaller. */
  lemma MisestimateExact(plan: int64, actual: int64)
    ensures var p, a := Clamped(plan), Clamped(actual);
            var lo, hi := if a > p then p else a, if a > p then a else p;
            IsMisestimate(plan, actual) <==> hi * 0x4_0000_0000_0000 >= lo * (10 * 0x4_0000_0000_0000 - 1)
  {
    var p, a := Clamped(plan), Clamped(actual);
    if a > p {
      RoundReachesTen(a, p);
    } else {
      RoundReachesTen(p, a);
    }
  }

  lemma PowersOfTwo()
    ensures Pow2(52) == ONE && Pow2(53) == EXACT_INT
  {
    assert Pow2(13) == 0x2000;
    DoubleTimes(13, 13);
    DoubleTimes(26, 26);
  }

  lemma {:induction false} DoubleTimes(i: nat, j: nat)
    ensures Pow2(i + j) == Pow2(i) * Pow2(j)
    decreases j
  {
    if j > 0 {
      DoubleTimes(i, j - 1);
      assert Pow2(i + j) == 2 * Pow2(i + (j - 1));
      assert Pow2(i) * (2 * Pow2(j - 1)) == 2 * (Pow2(i) * Pow2(j - 1));
    }
  }

  /** Integers up to 2^53 convert exactly. */
  lemma ConversionExact(x: nat)
    requires 1 <= x <= EXACT_INT
    ensures Round(x, 1) == x * ONE
  {
    hide Nearest, IsNearest;
    var e := Exponent(x, 1);
    var u := Pow2(e);
    PowersOfTwo();
    var n := x * ONE;
    var k: nat;
    if e <= 52 {
      Pow2Divides(e, 52);
      var t: nat :| Pow2(52) == t * u;
      k := x * t;
      Assoc(x, t, u);
    } else {
      if e > 53 {
        Pow2Doubles(53, e);
      }
      k := ONE;
    }
    NearestIsNearest(n, u);
    var r := Nearest(n, u);
    assert 1 * u == u;
    NearestMultipleExact(n, u, r, k);
  }

  lemma NearestMultipleExact(n: nat, c: nat, r: nat, k: nat)
    requires c > 0 && IsNearest(n, c, r) && n == k * c
    ensures r * c == n
  {
    NearestMultiple(n, c, r, k);
  }

  function AtLeastOne(x: int64): nat {
    if x < 1 then 1 else x
  }

  lemma ClampedExact(x: int64)
    requires x <= EXACT_INT
    ensures Clamped(x) == AtLeastOne(x) * ONE
  {
    hide Round;
    if x >= 1 {
      ConversionExact(x);
    }
  }

  lemma Threshold(lo: nat, hi: nat)
    requires 1 <= lo <= hi <= EXACT_INT
    ensures (hi * ONE) * 0x4_0000_0000_0000 >= (lo * ONE) * (10 * 0x4_0000_0000_0000 - 1) <==> hi >= 10 * lo
  {
  }

  /** Larger counts convert to at least 2^53. */
  lemma LargeClamped(x: int64)
    requires x > EXACT_INT
    ensures Clamped(x) >= EXACT_INT * ONE
  {
    hide Nearest;
    var e := Exponent(x, 1);
    PowersOfTwo();
    if e < 53 {
      Pow2Doubles(e, 53);
    } else if e > 53 {
      Pow2Doubles(53, e);
    }
    SignificandRange(x, 1);
    assert 1 * Pow2(e) == Pow2(e);
    AtLeastProduct(ONE, Nearest(x * ONE, Pow2(e)), EXACT_INT, Pow2(e));
  }

  lemma AtLeastProduct(a: nat, b: nat, c: nat, d: nat)
    requires a <= b && c <= d
    ensures c * a <= b * d
  {
    assert c * a <= d * a <= d * b;
  }

  /** Counts for which the flag is exact: both up to 2^53, or one of them up to a tenth of that. */
  predicate Moderate(plan: int64, actual: int64) {
    (plan <= EXACT_INT && actual <= EXACT_INT) || plan <= EXACT_INT / 10 || actual <= EXACT_INT / 10
  }

  /** For moderate counts the flag is exact: with both clamped up to 1, one is at least 10 times the other. */
  lemma MisestimateFlagExact(plan: int64, actual: int64)
    requires Moderate(plan, actual)
    ensures var p, a := AtLeastOne(plan), AtLeastOne(actual);
            IsMisestimate(plan, actual) <==> p >= 10 * a || a >= 10 * p
  {
    hide Clamped, IsMisestimate;
    MisestimateExact(plan, actual);
    if plan > EXACT_INT {
      LargeClamped(plan);
      ClampedExact(actual);
    } else if actual > EXACT_INT {
      LargeClamped(actual);
      ClampedExact(plan);
    } else {
      ClampedExact(plan);
      ClampedExact(actual);
      var p, a := AtLeastOne(plan), AtLeastOne(actual);
      if a > p {
        Threshold(p, a);
      } else {
        Threshold(a, p);
      }
    }
  }

  /** Beyond 2^53 rounding can lift a ratio below 10 to 10. */
  lemma MisestimateRoundsUp()
    ensures var plan: int64, actual: int64 := 0x10_0000_0000_0001, 0xA0_0000_0000_0008;
            10 * plan > actual && IsMisestimate(plan, actual)
  {
    hide Clamped, IsMisestimate;
    ClampedExact(0x10_0000_0000_0001);
    EightClamped();
    FlaggedFrom(0x10_0000_0000_0001, 0xA0_0000_0000_0008);
  }

  lemma FlaggedFrom(plan: int64, actual: int64)
    requires Clamped(plan) < Clamped(actual)
    requires Clamped(actual) * 0x4_0000_0000_0000 >= Clamped(plan) * (10 * 0x4_0000_0000_0000 - 1)
    ensures IsMisestimate(plan, actual)
  {
    hide Clamped, IsMisestimate;
    MisestimateExact(plan, actual);
  }

  /** Conversion of an integer whose leading power of two is 2^e. */
  lemma Converts(x: nat, e: nat)
    requires Pow2(e) <= x < 2 * Pow2(e)
    ensures Round(x, 1) == Nearest(x * ONE, Pow2(e)) * Pow2(e)
  {
    hide Nearest;
    var k := Exponent(x, 1);
    if e < k {
      Pow2Doubles(e, k);
    } else if k < e {
      Pow2Doubles(k, e);
    }
    assert 1 * Pow2(k) == Pow2(k);
  }

  lemma MorePowersOfTwo()
    ensures Pow2(53) == 0x20_0000_0000_0000 && Pow2(55) == 0x80_0000_0000_0000 && Pow2(56) == 0x100_0000_0000_0000
  {
    PowersOfTwo();
    assert Pow2(54) == 2 * Pow2(53) && Pow2(55) == 2 * Pow2(54);
  }

  lemma EightClamped()
    ensures Clamped(0xA0_0000_0000_0008) == 0xA0_0000_0000_0008 * ONE
  {
    hide Round;
    MorePowersOfTwo();
    Converts(0xA0_0000_0000_0008, 55);
  }

  lemma RoundedClamped()
    ensures Clamped(0x20_0000_0000_0007) == 0x20_0000_0000_0008 * ONE
    ensures Clamped(0x140_0000_0000_0046) == 0x140_0000_0000_0040 * ONE
  {
    hide Round;
    MorePowersOfTwo();
    Converts(0x20_0000_0000_0007, 53);
    Converts(0x140_0000_0000_0046, 56);
  }

  /** And it can push a ratio of exactly 10 below 10. */
  lemma MisestimateMissed()
    ensures var plan: int64, actual: int64 := 0x20_0000_0000_0007, 0x140_0000_0000_0046;
            actual == 10 * plan && !IsMisestimate(plan, actual)
  {
    hide Clamped, IsMisestimate;
    RoundedClamped();
    MisestimateExact(0x20_0000_0000_0007, 0x140_0000_0000_0046);
  }
}
