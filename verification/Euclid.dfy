/**
 bindings/python/rad_util.py: `gcf`, `lcm`, `reduce_fraction` on integers.

 Both operands may be negative or zero.  Divisibility is stated by a quotient, so
 that 0 is a multiple of everything and divides only itself; the greatest common
 divisor is the common divisor that all others divide, and the least common
 multiple is the common multiple that divides all others.
 */
module Euclid {
  import opened Wrappers

  function Abs(a: int): nat {
    if a < 0 then -a else a
  }

  /** Python's `//`, which rounds towards minus infinity; Dafny's `/` rounds so that the remainder is not negative. */
  function FloorDiv(a: int, b: int): int
    requires b != 0
  {
    if b < 0 && a % b != 0 then a / b - 1 else a / b
  }

  /** Python's `%`: the remainder has the sign of the divisor. */
  function FloorMod(a: int, b: int): int
    requires b != 0
  {
    a - b * FloorDiv(a, b)
  }

  /** The remainder is nearer to zero than the divisor, on the divisor's side. */
  lemma FloorModSmall(a: int, b: int)
    requires b != 0
    ensures if b > 0 then 0 <= FloorMod(a, b) < b else b < FloorMod(a, b) <= 0
  {
    assert a == b * (a / b) + a % b;
    if b < 0 && a % b != 0 {
      assert b * (a / b - 1) == b * (a / b) - b;
    }
  }

  ghost predicate Divides(d: int, a: int) {
    exists q :: Product(d, q) == a
  }

  function Product(d: int, q: int): int {
    d * q
  }

  lemma DividesBy(d: int, q: int, a: int)
    requires a == d * q
    ensures Divides(d, a)
  {
    assert Product(d, q) == a;
  }

  lemma DividesSum(d: int, a: int, b: int, k: int)
    requires Divides(d, a) && Divides(d, b)
    ensures Divides(d, a + b * k)
  {
    var p :| Product(d, p) == a;
    var q :| Product(d, q) == b;
    calc {
      a + b * k;
      d * p + d * q * k;
      d * p + d * (q * k);
      d * (p + q * k);
    }
    DividesBy(d, p + q * k, a + b * k);
  }

  lemma DividesAbs(d: int, a: int)
    ensures Divides(d, a) <==> Divides(d, Abs(a))
    ensures Divides(d, a) <==> Divides(Abs(d), a)
  {
    if q :| Product(d, q) == a {
      DividesBy(d, -q, -a);
      DividesBy(-d, -q, a);
    }
    if q :| Product(d, q) == Abs(a) {
      DividesBy(d, -q, 0 - Abs(a));
    }
    if q :| Product(Abs(d), q) == a {
      DividesBy(d, if d < 0 then -q else q, a);
    }
  }

  /** A divisor of both that every common divisor divides: the greatest one, or 0 for two zeros. */
  ghost predicate IsGcd(g: int, a: int, b: int) {
    g >= 0 && Divides(g, a) && Divides(g, b) && forall d :: Divides(d, a) && Divides(d, b) ==> Divides(d, g)
  }

  /** One round of the loop keeps the common divisors. */
  lemma SameDivisors(d: int, a: int, b: int)
    requires b != 0
    ensures Divides(d, a) && Divides(d, b) <==> Divides(d, b) && Divides(d, FloorMod(a, b))
  {
    var q := FloorDiv(a, b);
    if Divides(d, b) {
      if Divides(d, a) {
        DividesSum(d, a, b, -q);
        assert a + b * (-q) == a - b * q;
      }
      if Divides(d, FloorMod(a, b)) {
        DividesSum(d, FloorMod(a, b), b, q);
      }
    }
  }

  lemma GcdOfZero(a: int)
    ensures IsGcd(Abs(a), a, 0)
  {
    DividesBy(a, 1, a);
    DividesAbs(a, a);
    DividesBy(Abs(a), 0, 0);
    forall d | Divides(d, a)
      ensures Divides(d, Abs(a))
    {
      DividesAbs(d, a);
    }
  }

  ghost predicate CommonDivisor(d: int, a: int, b: int) {
    Divides(d, a) && Divides(d, b)
  }

  ghost predicate SameCommonDivisors(a: int, b: int, x: int, y: int) {
    forall d :: CommonDivisor(d, a, b) <==> CommonDivisor(d, x, y)
  }

  lemma GcdTransfers(g: int, a: int, b: int, x: int, y: int)
    requires SameCommonDivisors(a, b, x, y) && IsGcd(g, x, y)
    ensures IsGcd(g, a, b)
  {
    assert CommonDivisor(g, x, y);
    assert CommonDivisor(g, a, b);
    forall d | Divides(d, a) && Divides(d, b)
      ensures Divides(d, g)
    {
      assert CommonDivisor(d, a, b);
      assert CommonDivisor(d, x, y);
    }
  }

  lemma RoundKeeps(a: int, b: int, x: int, y: int)
    requires y != 0 && SameCommonDivisors(a, b, x, y)
    ensures SameCommonDivisors(a, b, y, FloorMod(x, y))
  {
    forall d
      ensures CommonDivisor(d, a, b) <==> CommonDivisor(d, y, FloorMod(x, y))
    {
      SameDivisors(d, x, y);
      assert CommonDivisor(d, a, b) <==> CommonDivisor(d, x, y);
    }
  }

  ghost predicate Combination(g: int, a: int, b: int) {
    exists x, y :: Product(a, x) + Product(b, y) == g
  }

  lemma CombinationOf(g: int, a: int, b: int, x: int, y: int)
    requires g == a * x + b * y
    ensures Combination(g, a, b)
  {
    assert Product(a, x) + Product(b, y) == g;
  }

  lemma RoundCombines(a: int, b: int, g: int, h: int)
    requires h != 0 && Combination(g, a, b) && Combination(h, a, b)
    ensures Combination(FloorMod(g, h), a, b)
  {
    var x, y :| Product(a, x) + Product(b, y) == g;
    var u, v :| Product(a, u) + Product(b, v) == h;
    var q := FloorDiv(g, h);
    calc {
      g - h * q;
      a * x + b * y - (a * u + b * v) * q;
      a * x + b * y - a * u * q - b * v * q;
      a * x - a * (u * q) + (b * y - b * (v * q));
      a * (x - u * q) + b * (y - v * q);
    }
    CombinationOf(FloorMod(g, h), a, b, x - u * q, y - v * q);
  }

  /**
   For integers the loop's test against epsilon is the test for zero.  The result
   is also a combination of the two numbers.
   */
  method Gcf(a: int, b: int) returns (g: int)
    ensures IsGcd(g, a, b)
    ensures Combination(g, a, b)
  {
    var result := if a < b then b else a;
    var remainder := if a < b then a else b;
    assert SameCommonDivisors(a, b, result, remainder);
    CombinationOf(a, a, b, 1, 0);
    CombinationOf(b, a, b, 0, 1);
    while remainder != 0
      invariant SameCommonDivisors(a, b, result, remainder)
      invariant Combination(result, a, b) && Combination(remainder, a, b)
      decreases Abs(remainder)
    {
      FloorModSmall(result, remainder);
      RoundKeeps(a, b, result, remainder);
      RoundCombines(a, b, result, remainder);
      var new_remainder := FloorMod(result, remainder);
      result := remainder;
      remainder := new_remainder;
    }
    GcdOfZero(result);
    GcdTransfers(Abs(result), a, b, result, 0);
    AbsCombines(result, a, b);
    return Abs(result);
  }

  lemma AbsCombines(g: int, a: int, b: int)
    requires Combination(g, a, b)
    ensures Combination(Abs(g), a, b)
  {
    if g < 0 {
      var x, y :| Product(a, x) + Product(b, y) == g;
      assert a * -x + b * -y == -(a * x + b * y);
      CombinationOf(-g, a, b, -x, -y);
    }
  }

  lemma ExactDivision(a: int, g: int)
    requires g != 0 && Divides(g, a)
    ensures g * FloorDiv(a, g) == a
  {
    var q :| Product(g, q) == a;
    FloorModSmall(a, g);
    var r := FloorMod(a, g);
    assert r == g * q - g * FloorDiv(a, g) == g * (q - FloorDiv(a, g));
    SmallMultiple(g, q - FloorDiv(a, g));
  }

  lemma PositiveMultiple(g: int, k: int)
    requires k > 0
    ensures Abs(g * k) >= Abs(g)
  {
    var rest := g * (k - 1);
    assert g * k == rest + g;
    assert g >= 0 ==> rest >= 0;
    assert g < 0 ==> rest <= 0;
  }

  /** A multiple of g nearer to zero than g is zero. */
  lemma SmallMultiple(g: int, k: int)
    requires g != 0 && Abs(g * k) < Abs(g)
    ensures k == 0
  {
    if k > 0 {
      PositiveMultiple(g, k);
    } else if k < 0 {
      assert g * -k == -(g * k);
      PositiveMultiple(g, -k);
    }
  }

  ghost predicate Coprime(a: int, b: int) {
    IsGcd(1, a, b)
  }

  /** Dividing both numbers by their greatest common divisor leaves a coprime pair. */
  lemma QuotientsCoprime(a: int, b: int, g: int, p: int, q: int)
    requires g > 0 && IsGcd(g, a, b) && a == g * p && b == g * q
    ensures Coprime(p, q)
  {
    DividesBy(1, p, p);
    DividesBy(1, q, q);
    forall d | Divides(d, p) && Divides(d, q)
      ensures Divides(d, 1)
    {
      var i :| Product(d, i) == p;
      var j :| Product(d, j) == q;
      assert g * d * i == g * (d * i) && g * d * j == g * (d * j);
      DividesBy(g * d, i, a);
      DividesBy(g * d, j, b);
      var k :| Product(g * d, k) == g;
      assert g * d * k == g * (d * k);
      assert g * (d * k - 1) == 0;
      SmallMultiple(g, d * k - 1);
      DividesBy(d, k, 1);
    }
  }

  lemma ZeroIffZeros(g: int, a: int, b: int)
    requires IsGcd(g, a, b)
    ensures g == 0 <==> a == 0 && b == 0
  {
    DividesBy(0, 0, 0);
    if q :| Product(g, q) == a {
      assert g == 0 ==> a == 0;
    }
    if q :| Product(g, q) == b {
      assert g == 0 ==> b == 0;
    }
    if a == 0 && b == 0 {
      assert Divides(0, g);
      var q :| Product(0, q) == g;
    }
  }

  lemma Quotients(a: int, b: int, g: int)
    requires IsGcd(g, a, b) && g != 0
    ensures a == g * FloorDiv(a, g) && b == g * FloorDiv(b, g)
    ensures Coprime(FloorDiv(a, g), FloorDiv(b, g))
  {
    ExactDivision(a, g);
    ExactDivision(b, g);
    QuotientsCoprime(a, b, g, FloorDiv(a, g), FloorDiv(b, g));
  }

  /** Two zeros make the source divide by zero. */
  method ReduceFraction(numerator: int, denominator: int) returns (r: Option<(int, int)>)
    ensures r.None? <==> numerator == 0 && denominator == 0
    ensures r.Some? ==> Coprime(r.value.0, r.value.1) && numerator * r.value.1 == denominator * r.value.0
    ensures r.Some? ==> exists g :: g > 0 && numerator == Product(g, r.value.0) && denominator == Product(g, r.value.1)
  {
    var common_factor := Gcf(numerator, denominator);
    ZeroIffZeros(common_factor, numerator, denominator);
    if common_factor == 0 {
      return None;
    }
    Quotients(numerator, denominator, common_factor);
    var p, q := FloorDiv(numerator, common_factor), FloorDiv(denominator, common_factor);
    CrossMultiply(common_factor, p, q);
    assert numerator == Product(common_factor, p) && denominator == Product(common_factor, q);
    return Some((p, q));
  }

  lemma CrossMultiply(g: int, p: int, q: int)
    ensures g * p * q == g * q * p
  {
    assert p * q == q * p;
    assert g * p * q == g * (p * q) && g * q * p == g * (q * p);
  }

  /** A common multiple that divides every common multiple: the least one in absolute value. */
  ghost predicate IsLcm(m: int, a: int, b: int) {
    Divides(a, m) && Divides(b, m) && forall n :: Divides(a, n) && Divides(b, n) ==> Divides(m, n)
  }

  /** Every common multiple is a multiple of a * (b / g): this is where the combination is needed. */
  lemma MultipleOfLcm(a: int, b: int, g: int, p: int, q: int, n: int)
    requires g != 0 && a == g * p && b == g * q && Combination(g, a, b)
    requires Divides(a, n) && Divides(b, n)
    ensures Divides(a * q, n)
  {
    var x, y :| Product(a, x) + Product(b, y) == g;
    var i :| Product(a, i) == n;
    var j :| Product(b, j) == n;
    UnitCombination(g, p, q, x, y);
    EqualFactors(g, p, i, q, j);
    FactorOut(p, q, x, y, i, j);
    var k := j * x + y * i;
    TimesTimes(a, q, k);
    DividesBy(a * q, k, n);
  }

  lemma TimesTimes(a: int, b: int, c: int)
    ensures a * (b * c) == a * b * c
  {
  }

  lemma UnitCombination(g: int, p: int, q: int, x: int, y: int)
    requires g != 0 && g * p * x + g * q * y == g
    ensures p * x + q * y == 1
  {
    TimesTimes(g, p, x);
    TimesTimes(g, q, y);
    assert g * (p * x + q * y) == g * (p * x) + g * (q * y);
    Cancel(g, p * x + q * y, 1);
  }

  lemma EqualFactors(g: int, p: int, i: int, q: int, j: int)
    requires g != 0 && g * p * i == g * q * j
    ensures p * i == q * j
  {
    TimesTimes(g, p, i);
    TimesTimes(g, q, j);
    Cancel(g, p * i, q * j);
  }

  lemma FactorOut(p: int, q: int, x: int, y: int, i: int, j: int)
    requires p * x + q * y == 1 && p * i == q * j
    ensures i == q * (j * x + y * i)
  {
    calc {
      (p * x + q * y) * i;
      p * x * i + q * y * i;
      { assert p * x * i == p * i * x; assert q * y * i == q * (y * i); }
      p * i * x + q * (y * i);
      q * j * x + q * (y * i);
      { assert q * j * x == q * (j * x); }
      q * (j * x) + q * (y * i);
      q * (j * x + y * i);
    }
  }

  lemma Cancel(g: int, a: int, b: int)
    requires g != 0 && g * a == g * b
    ensures a == b
  {
    assert g * (a - b) == 0;
    SmallMultiple(g, a - b);
  }

  method Lcm(a: int, b: int) returns (m: int)
    ensures IsLcm(m, a, b)
    ensures forall g :: IsGcd(g, a, b) && g != 0 ==> Product(g, m) == Product(a, b)
  {
    var denom := Gcf(a, b);
    ZeroIffZeros(denom, a, b);
    if denom == 0 {
      forall g | IsGcd(g, a, b)
        ensures g == 0
      {
        ZeroIffZeros(g, a, b);
      }
      return 0;
    }
    Quotients(a, b, denom);
    m := a * FloorDiv(b, denom);
    LcmOfQuotients(a, b, denom, FloorDiv(a, denom), FloorDiv(b, denom));
    forall g | IsGcd(g, a, b) && g != 0
      ensures Product(g, m) == Product(a, b)
    {
      GcdUnique(g, denom, a, b);
      assert denom * (a * FloorDiv(b, denom)) == a * (denom * FloorDiv(b, denom));
    }
  }

  lemma LcmOfQuotients(a: int, b: int, g: int, p: int, q: int)
    requires g != 0 && a == g * p && b == g * q && Combination(g, a, b)
    ensures IsLcm(a * q, a, b)
  {
    DividesBy(a, q, a * q);
    assert g * p * q == g * q * p by { CrossMultiply(g, p, q); }
    DividesBy(b, p, a * q);
    forall n | Divides(a, n) && Divides(b, n)
      ensures Divides(a * q, n)
    {
      MultipleOfLcm(a, b, g, p, q, n);
    }
  }

  /** There is only one greatest common divisor. */
  lemma GcdUnique(g: int, h: int, a: int, b: int)
    requires IsGcd(g, a, b) && IsGcd(h, a, b)
    ensures g == h
  {
    assert Divides(g, h) && Divides(h, g);
    DividesBound(g, h);
    DividesBound(h, g);
  }

  lemma DividesBound(d: int, n: int)
    requires d >= 0 && n >= 0 && Divides(d, n)
    ensures n == 0 || d <= n
  {
    var q :| Product(d, q) == n;
    if q > 0 {
      PositiveMultiple(d, q);
    } else {
      assert d * q <= 0;
    }
  }
}
