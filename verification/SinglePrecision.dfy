/**
  Sums of single-precision numbers, as their bits: the binary32 format of IEEE 754, rounding
  to the nearest number, ties to the even one. A sum of nothing defined, or with one, is not
  a number.
 */
module SinglePrecision {
  type Float = bits: nat | bits < 0x1_0000_0000

  const SIGN := 0x8000_0000
  const FRACTION := 0x80_0000
  const PRECISION := 0x100_0000
  const INFINITY := 0x7F80_0000
  const QUIET := 0x40_0000
  const NOT_A_NUMBER := 0xFFC0_0000

  predicate IsNegative(f: Float) {
    f >= SIGN
  }

  function Magnitude(f: Float): nat {
    f % SIGN
  }

  predicate IsFinite(f: Float) {
    Magnitude(f) < INFINITY
  }

  predicate IsNaN(f: Float) {
    Magnitude(f) > INFINITY
  }

  function Power2(n: nat): (p: nat)
    ensures p > 0
  {
    if n == 0 then 1 else 2 * Power2(n - 1)
  }

  /** The value of a finite number, in units of the smallest one. */
  function Units(f: Float): int
    requires IsFinite(f)
  {
    var exponent, fraction := Magnitude(f) / FRACTION, Magnitude(f) % FRACTION;
    var units := if exponent == 0 then fraction else (FRACTION + fraction) * Power2(exponent - 1);
    if IsNegative(f) then -units else units
  }

  /** How many low bits of a value do not fit a number. */
  function Excess(units: nat): nat {
    if units < PRECISION then 0 else 1 + Excess(units / 2)
  }

  /** The bits of the number nearest to a value. */
  function Rounded(units: nat): (f: nat)
    ensures f <= INFINITY
  {
    var excess := Excess(units);
    var q, r := units / Power2(excess), units % Power2(excess);
    var up := 2 * r > Power2(excess) || (2 * r == Power2(excess) && q % 2 == 1);
    var bits := excess * FRACTION + q + if up then 1 else 0;
    if bits < INFINITY then bits else INFINITY
  }

  function Quieted(f: Float): Float
    requires IsNaN(f)
  {
    if Magnitude(f) % FRACTION < QUIET then f + QUIET else f
  }

  function Sum(x: Float, y: Float): Float {
    if IsNaN(x) then Quieted(x)
    else if IsNaN(y) then Quieted(y)
    else if !IsFinite(x) then if !IsFinite(y) && x != y then NOT_A_NUMBER else x
    else if !IsFinite(y) then y
    else
      var units := Units(x) + Units(y);
      if units > 0 then Rounded(units)
      else if units < 0 then SIGN + Rounded(-units)
      else if IsNegative(x) && IsNegative(y) then SIGN
      else 0
  }

  // ---- Sums that are exact ----

  /** A whole number of steps, each of 2^scale units. */
  ghost predicate IsWhole(f: Float, scale: nat) {
    IsFinite(f) && Units(f) % Power2(scale) == 0
  }

  function Distance(n: int): nat {
    if n < 0 then -n else n
  }

  lemma {:induction false} ExcessBound(units: nat, scale: nat)
    requires units < PRECISION * Power2(scale)
    ensures Excess(units) <= scale
  {
    if units >= PRECISION {
      assert scale > 0;
      ExcessBound(units / 2, scale - 1);
    }
  }

  /** The kept bits of a value that does not fit start with a one. */
  lemma {:induction false} ExcessKeeps(units: nat)
    ensures units < PRECISION * Power2(Excess(units))
    ensures Excess(units) > 0 ==> FRACTION * Power2(Excess(units)) <= units
  {
    if units >= PRECISION {
      ExcessKeeps(units / 2);
    }
  }

  lemma {:induction false} PowersDivide(low: nat, high: nat, n: int)
    requires low <= high && n % Power2(high) == 0
    ensures n % Power2(low) == 0
    decreases high
  {
    if low < high {
      var half, q := Power2(high - 1), n / Power2(high);
      assert n == (2 * q) * half;
      MultipleOf(2 * q, half);
      PowersDivide(low, high - 1, n);
    }
  }

  lemma {:induction false} ProductAtLeast(a: nat, d: nat)
    requires a > 0
    ensures a * d >= d
  {
    if a > 1 {
      ProductAtLeast(a - 1, d);
      assert a * d == (a - 1) * d + d;
    }
  }

  lemma MultipleOf(q: int, d: nat)
    requires d > 0
    ensures (q * d) % d == 0 && (q * d) / d == q
  {
    QuotientOf(q * d, q, d);
  }

  lemma Multiples(n: int, d: nat)
    ensures n > 0 ==> n * d >= d
    ensures n < 0 ==> -(n * d) >= d
  {
    if n > 0 {
      ProductAtLeast(n, d);
    } else if n < 0 {
      ProductAtLeast(-n, d);
      assert (-n) * d == -(n * d);
    }
  }

  lemma QuotientOf(n: int, q: int, d: nat)
    requires d > 0 && n == q * d
    ensures n % d == 0 && n / d == q
  {
    var k := n / d;
    Multiples(q - k, d);
    assert (q - k) * d == q * d - k * d == n % d;
  }

  lemma WholeQuotient(n: int, d: nat)
    requires d > 0 && n % d == 0
    ensures n == (n / d) * d
  {
  }

  lemma QuotientBound(q: int, d: nat, bound: int)
    requires d > 0
    ensures q * d < bound * d ==> q < bound
    ensures bound * d <= q * d ==> bound <= q
  {
    if q >= bound {
      assert (q - bound) * d >= 0;
    } else {
      assert (bound - q - 1) * d >= 0;
    }
  }

  /** A value with few enough bits is a number, and none of it is rounded away. */
  lemma RoundedIsExact(units: nat, scale: nat)
    requires units < PRECISION * Power2(scale) && units % Power2(scale) == 0 && scale <= 253
    ensures Rounded(units) < INFINITY && Units(Rounded(units)) == units
  {
    var excess := Excess(units);
    ExcessBound(units, scale);
    ExcessKeeps(units);
    PowersDivide(excess, scale, units);
    hide Excess, Power2;
    var d := Power2(excess);
    WholeQuotient(units, d);
    QuotientBound(units / d, d, PRECISION);
    QuotientBound(units / d, d, FRACTION);
    hide Units, Rounded;
    if excess == 0 {
      NothingKept(units);
    }
    KeptUnits(excess, units / d);
    RoundsDown(units);
  }

  lemma RoundsDown(units: nat)
    requires units % Power2(Excess(units)) == 0
    ensures
      var bits := Excess(units) * FRACTION + units / Power2(Excess(units));
      bits < INFINITY ==> Rounded(units) == bits
  {
    hide Excess, Power2;
  }

  lemma KeptUnits(excess: nat, q: nat)
    requires q < PRECISION && excess <= 253 && (q >= FRACTION || excess == 0)
    ensures
      var bits := excess * FRACTION + q;
      bits < INFINITY && Units(bits) == q * Power2(excess)
  {
    hide Power2;
    var bits := excess * FRACTION + q;
    assert bits < INFINITY && Magnitude(bits) == bits;
    var exponent, fraction := bits / FRACTION, bits % FRACTION;
    if q >= FRACTION {
      assert exponent == excess + 1 && fraction == q - FRACTION;
      assert Units(bits) == (FRACTION + fraction) * Power2(exponent - 1);
    } else {
      assert exponent == 0 && fraction == q;
      assert Units(bits) == fraction;
      NoPower();
    }
  }

  lemma NoPower()
    ensures Power2(0) == 1
  {
  }

  lemma NothingKept(units: nat)
    requires Excess(units) == 0
    ensures units < PRECISION
  {
  }

  /** The values that have a number of their own: at most 24 bits, and not too far left. */
  ghost predicate IsExact(units: int) {
    exists scale: nat :: scale <= 253 && Distance(units) < PRECISION * Power2(scale) && units % Power2(scale) == 0
  }

  /** A sum is exact exactly when there is a number for it. */
  lemma SumIsExactly(x: Float, y: Float)
    requires IsFinite(x) && IsFinite(y)
    ensures IsFinite(Sum(x, y)) && Units(Sum(x, y)) == Units(x) + Units(y) <==> IsExact(Units(x) + Units(y))
  {
    hide Units, Sum, IsExact;
    if IsExact(Units(x) + Units(y)) {
      NumbersAreKept(x, y);
    } else if IsFinite(Sum(x, y)) {
      UnitsAreExact(Sum(x, y));
    }
  }

  lemma UnitsAreExact(f: Float)
    requires IsFinite(f)
    ensures IsExact(Units(f))
  {
    hide Power2;
    var exponent, fraction := Magnitude(f) / FRACTION, Magnitude(f) % FRACTION;
    if exponent == 0 {
      NoPower();
      FewStepsAreExact(if IsNegative(f) then -fraction else fraction, 0);
    } else {
      var steps: int := FRACTION + fraction;
      assert (-steps) * Power2(exponent - 1) == -(steps * Power2(exponent - 1));
      FewStepsAreExact(if IsNegative(f) then -steps else steps, exponent - 1);
    }
  }

  lemma FewStepsAreExact(steps: int, scale: nat)
    requires Distance(steps) < PRECISION && scale <= 253
    ensures IsExact(steps * Power2(scale))
  {
    MultipleOf(steps, Power2(scale));
    StepsReach(steps, Power2(scale));
    hide *;
  }

  lemma StepsReach(steps: int, d: nat)
    requires Distance(steps) < PRECISION && d > 0
    ensures Distance(steps * d) < PRECISION * d
  {
    FewerSteps(steps, PRECISION, d);
    FewerSteps(-steps, PRECISION, d);
    assert (-steps) * d == -(steps * d);
  }

  lemma FewerSteps(n: int, bound: int, d: nat)
    requires n < bound && d > 0
    ensures n * d < bound * d
  {
    ProductAtLeast(bound - n, d);
    assert bound * d == n * d + (bound - n) * d;
  }

  lemma NumbersAreKept(x: Float, y: Float)
    requires IsFinite(x) && IsFinite(y) && IsExact(Units(x) + Units(y))
    ensures IsFinite(Sum(x, y)) && Units(Sum(x, y)) == Units(x) + Units(y)
  {
    hide Power2, Rounded, Units, IsExact;
    var units := Units(x) + Units(y);
    ExactIsKept(units);
    SignedUnits(Rounded(Distance(units)));
    ZeroUnits();
    SumIsRounded(x, y);
  }

  lemma ExactIsKept(units: int)
    requires IsExact(units)
    ensures Rounded(Distance(units)) < INFINITY && Units(Rounded(Distance(units))) == Distance(units)
  {
    hide Power2, Rounded, Units, Distance;
    var scale: nat :| scale <= 253 && Distance(units) < PRECISION * Power2(scale) && units % Power2(scale) == 0;
    WholeSum(units, 0, Power2(scale));
    RoundedIsExact(Distance(units), scale);
  }

  /** Adding whole steps is exact while the sum has fewer than 2^24 steps. */
  lemma SumIsExact(x: Float, y: Float, scale: nat)
    requires IsWhole(x, scale) && IsWhole(y, scale) && scale <= 253
    requires Distance(Units(x) + Units(y)) < PRECISION * Power2(scale)
    ensures IsWhole(Sum(x, y), scale) && Units(Sum(x, y)) == Units(x) + Units(y)
  {
    hide Power2, Units, Sum, Distance;
    WholeSum(Units(x), Units(y), Power2(scale));
    assert IsExact(Units(x) + Units(y));
    NumbersAreKept(x, y);
  }

  lemma SumIsRounded(x: Float, y: Float)
    requires IsFinite(x) && IsFinite(y)
    ensures
      var units := Units(x) + Units(y);
      && (units > 0 ==> Sum(x, y) == Rounded(units)) && (units < 0 ==> Sum(x, y) == SIGN + Rounded(-units))
      && (units == 0 ==> Sum(x, y) == 0 || Sum(x, y) == SIGN)
  {
    hide Power2, Rounded, Units;
  }

  lemma WholeSum(m: int, n: int, d: nat)
    requires d > 0 && m % d == 0 && n % d == 0
    ensures (m + n) % d == 0 && Distance(m + n) % d == 0 && 0 % d == 0
  {
    WholeQuotient(m, d);
    WholeQuotient(n, d);
    var q := m / d + n / d;
    assert m + n == q * d && -(m + n) == (-q) * d;
    MultipleOf(q, d);
    MultipleOf(-q, d);
    MultipleOf(0, d);
  }

  lemma SignedUnits(f: Float)
    requires f < INFINITY
    ensures Units(SIGN + f) == -Units(f) && IsFinite(SIGN + f)
  {
    hide Power2;
    assert Magnitude(SIGN + f) == f == Magnitude(f);
  }

  lemma ZeroUnits()
    ensures Units(0) == 0 && Units(SIGN) == 0
  {
  }

  /** An odd number of steps that needs more than 24 bits has no number. */
  lemma OddIsNotExact(steps: nat, scale: nat)
    requires steps % 2 == 1 && steps >= PRECISION
    ensures !IsExact(steps * Power2(scale))
  {
    var units, d := steps * Power2(scale), Power2(scale);
    forall other: nat | units % Power2(other) == 0 ensures units >= PRECISION * Power2(other) {
      if other <= scale {
        PowersGrow(other, scale);
        AtLeast(PRECISION, steps, Power2(other), d);
      } else {
        PowersDivide(scale + 1, other, units);
        OddHalves(steps, d);
      }
    }
    assert Distance(units) == units;
    hide Power2;
  }

  lemma AtLeast(a: nat, b: nat, x: nat, y: nat)
    requires a <= b && x <= y
    ensures a * x <= b * y
  {
    assert b * y == a * x + a * (y - x) + (b - a) * y;
  }

  lemma OddHalves(steps: nat, d: nat)
    requires steps % 2 == 1 && d > 0
    ensures (steps * d) % (2 * d) != 0
  {
    if (steps * d) % (2 * d) == 0 {
      var q := (steps * d) / (2 * d);
      WholeQuotient(steps * d, 2 * d);
      assert steps * d == (2 * q) * d;
      QuotientOf(steps * d, steps, d);
      QuotientOf(steps * d, 2 * q, d);
      assert false;
    }
  }

  lemma {:induction false} PowersGrow(low: nat, high: nat)
    requires low <= high
    ensures Power2(low) <= Power2(high)
  {
    if low < high {
      PowersGrow(low, high - 1);
    }
  }

  const TENTH := 0x3DCC_CCCD
  const SIXTEEN := 0x4180_0000

  lemma FourTimes(n: nat)
    ensures Power2(n + 4) == 16 * Power2(n)
  {
    assert Power2(n + 2) == 4 * Power2(n);
  }

  lemma TenthUnits()
    ensures IsFinite(TENTH) && Units(TENTH) == 0xCC_CCCD * Power2(122)
  {
    hide Power2;
  }

  lemma SixteenUnits()
    ensures IsFinite(SIXTEEN) && Units(SIXTEEN) == 0x80_0000 * Power2(130)
  {
    hide Power2;
  }

  lemma Together(tenth: int, sixteen: int, d: int, e: int)
    requires tenth == 0xCC_CCCD * d && sixteen == 0x80_0000 * e && e == 256 * d
    ensures tenth + sixteen == 0x80CC_CCCD * d
  {
  }

  /** One tenth and sixteen have no exact sum. */
  lemma TenthAndSixteen()
    ensures IsFinite(TENTH) && IsFinite(SIXTEEN) && !IsExact(Units(TENTH) + Units(SIXTEEN))
  {
    hide Power2, Units, IsExact, Magnitude;
    TenthUnits();
    SixteenUnits();
    FourTimes(122);
    FourTimes(126);
    Together(Units(TENTH), Units(SIXTEEN), Power2(122), Power2(130));
    OddIsNotExact(0x80CC_CCCD, 122);
  }
}
