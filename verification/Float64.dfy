/** float64 values of at least 1, and their rounding to nearest, ties to even (IEEE 754-2008, section 4.3.1).

    Such a value is held in units of 2^-52, as the natural number k * 2^e whose significand k satisfies
    2^52 <= k < 2^53. A quotient num/den of at least 1 is num * 2^52 / den units. */
module Float64 {
  const ONE := 0x10_0000_0000_0000 // 2^52
  const TEN := 10 * ONE
  const EXACT_INT := 2 * ONE // 2^53

  function Pow2(n: nat): (r: nat)
    ensures r > 0
  {
    if n == 0 then 1 else 2 * Pow2(n - 1)
  }

  /** The exponent of num/den: the largest power of two not above it. */
  function Exponent(num: nat, den: nat): (e: nat)
    requires 0 < den <= num
    ensures den * Pow2(e) <= num < 2 * (den * Pow2(e))
    decreases num - den
  {
    if num < 2 * den then 0
    else
      var e := Exponent(num, 2 * den);
      assert 2 * den * Pow2(e) == den * Pow2(e + 1);
      e + 1
  }

  /** The integer nearest to n/c; the even one of two. */
  function Nearest(n: nat, c: nat): (r: nat)
    requires c > 0
  {
    var m := n / c;
    if 2 * (n % c) < c then m else if 2 * (n % c) > c then m + 1 else if m % 2 == 0 then m else m + 1
  }

  ghost predicate IsNearest(n: nat, c: nat, r: nat) {
    && 2 * (r * c) <= 2 * n + c
    && 2 * n <= 2 * (r * c) + c
    && (2 * (r * c) == 2 * n + c || 2 * n == 2 * (r * c) + c ==> r % 2 == 0)
  }

  lemma NearestIsNearest(n: nat, c: nat)
    requires c > 0
    ensures IsNearest(n, c, Nearest(n, c))
  {
    var m := n / c;
    assert n == m * c + n % c;
    assert (m + 1) * c == m * c + c;
  }

  lemma ProductGap(a: nat, b: nat, c: nat)
    requires a < b
    ensures a * c + c <= b * c
  {
    var d := b - a - 1;
    assert b == a + 1 + d;
    assert (a + 1 + d) * c == a * c + c + d * c;
  }

  /** The float64 nearest to num/den, in units. */
  function Round(num: nat, den: nat): nat
    requires 0 < den <= num
  {
    var u := Pow2(Exponent(num, den));
    Nearest(num * ONE, den * u) * u
  }

  // ---- It is the nearest representable value -----------------------------------------------

  ghost predicate IsValue(g: nat, k: nat, e: nat) {
    ONE <= k < 2 * ONE && g == k * Pow2(e)
  }

  /** The float64 values of at least 1. */
  ghost predicate Representable(g: nat) {
    exists k: nat, e: nat :: IsValue(g, k, e)
  }

  function Abs(x: int): nat {
    if x < 0 then -x else x
  }

  lemma SignificandRange(num: nat, den: nat)
    requires 0 < den <= num
    ensures var c := den * Pow2(Exponent(num, den)); c > 0 && ONE <= Nearest(num * ONE, c) <= 2 * ONE
  {
    var c := den * Pow2(Exponent(num, den));
    assert c > 0;
    var n := num * ONE;
    var r := Nearest(n, c);
    NearestIsNearest(n, c);
    if r < ONE {
      ProductGap(r, ONE, c);
    }
    if r > 2 * ONE {
      ProductGap(2 * ONE, r, c);
    }
  }

  lemma PartsAreRepresentable(r: nat, e: nat)
    requires ONE <= r <= 2 * ONE
    ensures Representable(r * Pow2(e)) && r * Pow2(e) >= ONE
  {
    if r < 2 * ONE {
      assert IsValue(r * Pow2(e), r, e);
    } else {
      assert IsValue(r * Pow2(e), ONE, e + 1);
    }
    ProductGap0(r, Pow2(e));
  }

  lemma RoundIsRepresentable(num: nat, den: nat)
    requires 0 < den <= num
    ensures Representable(Round(num, den)) && Round(num, den) >= ONE
  {
    hide Nearest, Representable;
    SignificandRange(num, den);
    PartsAreRepresentable(Nearest(num * ONE, den * Pow2(Exponent(num, den))), Exponent(num, den));
  }

  lemma ProductGap0(r: nat, u: nat)
    requires u > 0
    ensures r * u >= r
  {
  }

  lemma {:induction false} Pow2Divides(i: nat, j: nat)
    requires i <= j
    ensures exists t: nat :: Pow2(j) == t * Pow2(i)
    decreases j
  {
    if i == j {
      assert Pow2(j) == 1 * Pow2(i);
    } else {
      Pow2Divides(i, j - 1);
      var t: nat :| Pow2(j - 1) == t * Pow2(i);
      assert Pow2(j) == (2 * t) * Pow2(i);
    }
  }

  lemma {:induction false} Pow2Doubles(i: nat, j: nat)
    requires i < j
    ensures 2 * Pow2(i) <= Pow2(j)
    decreases j
  {
    if i < j - 1 {
      Pow2Doubles(i, j - 1);
    }
  }

  /** No multiple of c is nearer to n than the nearest one. */
  lemma NearestMultiple(n: nat, c: nat, r: nat, k: nat)
    requires c > 0 && IsNearest(n, c, r)
    ensures Abs(n - r * c) <= Abs(n - k * c)
  {
    if k < r {
      ProductGap(k, r, c);
    } else if k > r {
      ProductGap(r, k, c);
    }
  }

  lemma Assoc(a: nat, b: nat, c: nat)
    ensures (a * b) * c == a * (b * c) && (a * b) * c == a * (c * b)
  {
  }

  /** Every representable value is a multiple of the spacing, or lies below the binade. */
  lemma MultipleOrBelow(g: nat, den: nat, e: nat) returns (k: nat)
    requires Representable(g)
    ensures var c := den * Pow2(e); g * den == k * c || (g * den <= ONE * c && k == ONE)
  {
    var u := Pow2(e);
    var j: nat, i: nat :| IsValue(g, j, i);
    if e <= i {
      Pow2Divides(e, i);
      var t: nat :| Pow2(i) == t * u;
      k := j * t;
      Assoc(j, t, u);
      Assoc(k, u, den);
    } else {
      k := ONE;
      Pow2Doubles(i, e);
      BelowBinade(j, Pow2(i), u, den, g);
    }
  }

  /** Round-to-nearest: no representable value is nearer to num/den. Distances are scaled by den. */
  lemma RoundIsNearest(num: nat, den: nat, g: nat)
    requires 0 < den <= num && Representable(g)
    ensures Abs(num * ONE - Round(num, den) * den) <= Abs(num * ONE - g * den)
  {
    hide Nearest, IsNearest, Representable;
    var e := Exponent(num, den);
    var c := den * Pow2(e);
    var n := num * ONE;
    var r := Nearest(n, c);
    NearestIsNearest(n, c);
    Assoc(r, Pow2(e), den);
    var k := MultipleOrBelow(g, den, e);
    NearestMultiple(n, c, r, k);
  }

  lemma BelowBinade(k: nat, w: nat, u: nat, den: nat, g: nat)
    requires k < 2 * ONE && 2 * w <= u && g == k * w
    ensures g * den <= ONE * (den * u)
  {
    assert k * w <= 2 * ONE * w <= ONE * u by { MulMono(k, 2 * ONE, w); }
    MulMono(g, ONE * u, den);
    assert (ONE * u) * den == ONE * (den * u);
  }

  lemma MulMono(a: nat, b: nat, c: nat)
    requires a <= b
    ensures a * c <= b * c
  {
  }

  /** Ties go to an even significand. */
  lemma RoundTiesToEven(num: nat, den: nat)
    requires 0 < den <= num
    ensures var u := Pow2(Exponent(num, den)); var c := den * u; var n := num * ONE; var r := Nearest(n, c);
            Round(num, den) == r * u && (2 * Abs(n - r * c) == c ==> r % 2 == 0)
  {
    var c := den * Pow2(Exponent(num, den));
    assert c > 0;
    NearestIsNearest(num * ONE, c);
  }

  // ---- Comparing a rounded quotient with 10 ------------------------------------------------

  /** A rounded quotient reaches 10 exactly when the true one is within half a unit in the last place of it. */
  lemma RoundReachesTen(num: nat, den: nat)
    requires 0 < den <= num
    ensures Round(num, den) >= TEN <==> num * 0x4_0000_0000_0000 >= den * (10 * 0x4_0000_0000_0000 - 1)
  {
    hide Nearest;
    var e := Exponent(num, den);
    var u := Pow2(e);
    var c := den * u;
    var n := num * ONE;
    var r := Nearest(n, c);
    assert c > 0;
    NearestIsNearest(n, c);
    SignificandRange(num, den);
    assert Pow2(3) == 8;
    if e < 3 {
      Pow2Doubles(e, 3);
      BelowEight(num, den, u, r);
    } else if e > 3 {
      Pow2Doubles(3, e);
      AboveSixteen(num, den, u, r);
    } else {
      AtEight(num, den, r);
    }
  }

  lemma BelowEight(num: nat, den: nat, u: nat, r: nat)
    requires 0 < u <= 4 && num < 2 * (den * u) && r <= 2 * ONE
    ensures r * u < TEN && num < 8 * den
  {
  }

  lemma AboveSixteen(num: nat, den: nat, u: nat, r: nat)
    requires u >= 16 && den * u <= num && r >= ONE
    ensures r * u >= TEN && num >= 16 * den
  {
  }

  lemma AtEight(num: nat, den: nat, r: nat)
    requires den > 0 && IsNearest(num * ONE, den * 8, r)
    ensures r * 8 >= TEN <==> num * 0x4_0000_0000_0000 >= den * (10 * 0x4_0000_0000_0000 - 1)
  {
    var t := TEN / 8;
    var c := den * 8;
    assert t * 8 == TEN && t % 2 == 0;
    if r < t {
      ProductGap(r, t, c);
      if r + 1 < t {
        ProductGap(r + 1, t, c);
        assert (r + 1) * c == r * c + c;
      }
    } else {
      MulMono(t, r, c);
    }
  }
}
