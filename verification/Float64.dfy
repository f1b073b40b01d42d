/** What happens to an unsigned 64-bit integer that is written as a JSON number and read back
    into an untyped Go value: it becomes a float64 (section 6 of RFC 8259 leaves the precision
    to the reader), rounded to nearest with ties to even (section 4.3.1 of IEEE 754-2019). */
module Float64 {

  const TWO_53: nat := 0x20_0000_0000_0000
  const TWO_64: nat := 0x1_0000_0000_0000_0000

  type Uint64 = x: nat | x < 0x1_0000_0000_0000_0000

  function Pow2(k: nat): (p: nat)
    ensures p > 0
  {
    if k == 0 then 1 else 2 * Pow2(k - 1)
  }

  /** Exponent of the spacing of float64 values around n. */
  function SpacingExponent(n: nat): nat {
    if n < TWO_53 then 0 else SpacingExponent(n / 2) + 1
  }

  /** The multiple of `unit` nearest to n; on a tie the even multiple. */
  function NearestMultiple(n: nat, unit: nat): nat
    requires unit > 0
  {
    var r := n % unit;
    if 2 * r < unit || (2 * r == unit && n / unit % 2 == 0) then n - r else n - r + unit
  }

  /** The float64 read back for the number n. */
  function Round(n: nat): nat {
    NearestMultiple(n, Pow2(SpacingExponent(n)))
  }

  /** v = m * 2^e with a 53-bit significand: v is a float64 integer. */
  ghost predicate IsFloat(v: nat, m: nat, e: nat) {
    m < TWO_53 && v == m * Pow2(e)
  }

  ghost predicate Representable(v: nat) {
    exists m, e :: IsFloat(v, m, e)
  }

  function Distance(a: nat, b: nat): nat {
    if a < b then b - a else a - b
  }

  lemma {:induction false} PowMonotone(a: nat, b: nat)
    requires a <= b
    ensures Pow2(a) <= Pow2(b)
    ensures Pow2(b) == Pow2(b - a) * Pow2(a)
  {
    if a < b {
      PowMonotone(a, b - 1);
      assert Pow2(b) == 2 * (Pow2(b - 1 - a) * Pow2(a));
      assert Pow2(b - a) == 2 * Pow2(b - 1 - a);
      assert (2 * Pow2(b - 1 - a)) * Pow2(a) == 2 * (Pow2(b - 1 - a) * Pow2(a));
      assert Pow2(b - a) >= 1;
      assert Pow2(b) >= Pow2(b - 1);
    } else {
      assert Pow2(b - a) == 1;
    }
  }

  /** The spacing puts n between 2^52 and 2^53 units, unless n is below 2^53 already. */
  lemma {:induction false} SpacingBounds(n: nat)
    ensures var unit := Pow2(SpacingExponent(n));
      n < TWO_53 * unit && (SpacingExponent(n) > 0 ==> TWO_53 / 2 * unit <= n)
  {
    if n >= TWO_53 {
      SpacingBounds(n / 2);
    }
  }

  /** Up to 2^53 the value comes back unchanged, so distinct keys stay distinct. */
  lemma RoundExact(n: nat)
    requires n <= TWO_53
    ensures Round(n) == n
  {
    if n == TWO_53 {
      assert SpacingExponent(TWO_53 / 2) == 0;
      assert SpacingExponent(n) == 1;
      assert Pow2(1) == 2 * Pow2(0);
    } else {
      assert Pow2(0) == 1;
    }
  }

  lemma DivideByUnit(n: nat, unit: nat)
    requires unit > 0
    ensures n == n / unit * unit + n % unit && 0 <= n % unit < unit
  {
  }

  lemma MulMonotone(a: nat, b: nat, c: nat)
    requires a <= b
    ensures a * c <= b * c
  {
    assert b * c == a * c + (b - a) * c;
  }

  /** The rounded value is one of the two multiples around n, whichever is nearer. */
  lemma NearestChoices(n: nat, unit: nat)
    requires unit > 0
    ensures var low := n - n % unit;
      var r := NearestMultiple(n, unit);
      0 <= low <= n < low + unit && (r == low || r == low + unit) && 2 * Distance(n, r) <= unit
  {
    RemainderBounds(n, unit);
    NearerOf(n, n - n % unit, unit, n / unit % 2 == 0);
  }

  lemma RemainderBounds(n: nat, unit: nat)
    requires unit > 0
    ensures 0 <= n % unit < unit && n % unit <= n
  {
    DivideByUnit(n, unit);
    MulMonotone(0, n / unit, unit);
  }

  lemma NearerOf(n: nat, low: nat, unit: nat, even: bool)
    requires low <= n < low + unit
    ensures var r := if 2 * (n - low) < unit || (2 * (n - low) == unit && even) then low else low + unit;
      2 * Distance(n, r) <= unit
  {
  }

  lemma NearerEndpoint(n: nat, low: nat, unit: nat, r: nat, t: nat)
    requires low <= n < low + unit && (r == low || r == low + unit) && 2 * Distance(n, r) <= unit
    requires t <= low || low + unit <= t
    ensures Distance(n, r) <= Distance(n, t)
  {
  }

  lemma MultiplesOutside(q: nat, unit: nat, j: nat)
    ensures j * unit <= q * unit || q * unit + unit <= j * unit
  {
    if j <= q {
      MulMonotone(j, q, unit);
    } else {
      MulMonotone(q + 1, j, unit);
      assert (q + 1) * unit == q * unit + unit;
    }
  }

  lemma MultiplesAround(n: nat, unit: nat, j: nat)
    requires unit > 0
    ensures j * unit <= n - n % unit || n - n % unit + unit <= j * unit
  {
    DivideByUnit(n, unit);
    MultiplesOutside(n / unit, unit, j);
  }

  lemma NearestBeats(n: nat, unit: nat, v: nat)
    requires unit > 0 && (v <= n - n % unit || n - n % unit + unit <= v)
    ensures Distance(n, NearestMultiple(n, unit)) <= Distance(n, v)
  {
    hide NearestMultiple;
    NearestChoices(n, unit);
    var low, r := n - n % unit, NearestMultiple(n, unit);
    assert Distance(n, r) <= Distance(n, v) by { NearerEndpoint(n, low, unit, r, v); }
  }

  lemma NearestBeatsMultiples(n: nat, unit: nat, j: nat)
    requires unit > 0
    ensures Distance(n, NearestMultiple(n, unit)) <= Distance(n, j * unit)
  {
    MultiplesAround(n, unit, j);
    NearestBeats(n, unit, j * unit);
  }

  lemma SmallExponent(m: nat, e: nat, k: nat)
    requires m < TWO_53 && e < k
    ensures m * Pow2(e) < TWO_53 / 2 * Pow2(k)
  {
    PowMonotone(e, k - 1);
    HalfSum(m, Pow2(e), Pow2(k - 1));
  }

  lemma HalfSum(m: nat, p: nat, q: nat)
    requires m < TWO_53 && 0 < p <= q
    ensures m * p < TWO_53 / 2 * (2 * q)
  {
    MulMonotone(m, TWO_53 - 1, p);
    assert (TWO_53 - 1) * p == TWO_53 * p - p;
  }

  lemma MulAssociative(a: nat, b: nat, c: nat)
    ensures a * (b * c) == (a * b) * c
  {
  }

  /** A float64 integer that is at least 2^52 units is a whole number of units. */
  lemma LargeFloatsAreMultiples(v: nat, m: nat, e: nat, k: nat) returns (j: nat)
    requires IsFloat(v, m, e)
    requires TWO_53 / 2 * Pow2(k) <= v
    ensures v == j * Pow2(k)
  {
    if e < k {
      SmallExponent(m, e, k);
    }
    PowMonotone(k, e);
    j := m * Pow2(e - k);
    MulAssociative(m, Pow2(e - k), Pow2(k));
  }

  /** Round gives a float64, and no float64 is nearer to n. */
  lemma RoundIsNearest(n: nat, v: nat)
    requires Representable(v)
    ensures Representable(Round(n))
    ensures Distance(n, Round(n)) <= Distance(n, v)
  {
    var k := SpacingExponent(n);
    var unit := Pow2(k);
    SpacingBounds(n);
    RoundRepresentable(n);
    var m, e :| IsFloat(v, m, e);
    if k == 0 {
      NearestBeatsMultiples(n, unit, v);
    } else if TWO_53 / 2 * unit <= v {
      var j := LargeFloatsAreMultiples(v, m, e, k);
      NearestBeatsMultiples(n, unit, j);
    } else {
      NearestBeatsMultiples(n, unit, TWO_53 / 2);
    }
  }

  /** The rounded value is q or q + 1 units, where q < 2^53. */
  lemma RoundSignificand(n: nat) returns (q: nat)
    ensures q < TWO_53
    ensures var unit := Pow2(SpacingExponent(n)); Round(n) == q * unit || Round(n) == q * unit + unit
  {
    var unit := Pow2(SpacingExponent(n));
    SpacingBounds(n);
    DivideByUnit(n, unit);
    NearestChoices(n, unit);
    q := n / unit;
    QuotientBound(n, unit, TWO_53);
  }

  lemma QuotientBound(n: nat, unit: nat, bound: nat)
    requires unit > 0 && n < bound * unit
    ensures n / unit < bound
  {
    DivideByUnit(n, unit);
    if n / unit >= bound {
      MulMonotone(bound, n / unit, unit);
    }
  }

  lemma RoundRepresentable(n: nat)
    ensures Representable(Round(n))
  {
    var k := SpacingExponent(n);
    var q := RoundSignificand(n);
    FloatSteps(Round(n), q, k);
  }

  lemma FloatSteps(v: nat, q: nat, k: nat)
    requires q < TWO_53 && (v == q * Pow2(k) || v == q * Pow2(k) + Pow2(k))
    ensures Representable(v)
  {
    if v == q * Pow2(k) {
      assert IsFloat(v, q, k);
    } else if q + 1 < TWO_53 {
      assert (q + 1) * Pow2(k) == q * Pow2(k) + Pow2(k);
      assert IsFloat(v, q + 1, k);
    } else {
      assert Pow2(k + 1) == 2 * Pow2(k);
      assert IsFloat(v, TWO_53 / 2, k + 1);
    }
  }

  /** When two float64 integers are equally near, the rounded value is the one that is an even number of
      spacings. */
  lemma TiesToEven(n: nat, v: nat)
    requires Representable(v) && v != Round(n) && Distance(n, v) == Distance(n, Round(n))
    ensures exists q: nat :: q % 2 == 0 && Round(n) == q * Pow2(SpacingExponent(n))
  {
    var unit := Pow2(SpacingExponent(n));
    SpacingBounds(n);
    if SpacingExponent(n) == 0 {
      RoundOfSmall(n);
    } else {
      TieIsHalf(n, v);
      EvenMultiple(n, unit);
    }
  }

  lemma RoundOfSmall(n: nat)
    requires SpacingExponent(n) == 0
    ensures Round(n) == n
  {
    assert Pow2(0) == 1;
  }

  /** Two representable numbers around n at the same distance are one spacing apart. */
  lemma TieIsHalf(n: nat, v: nat)
    requires SpacingExponent(n) > 0 && Representable(v) && v != Round(n) && Distance(n, v) == Distance(n, Round(n))
    ensures 2 * (n % Pow2(SpacingExponent(n))) == Pow2(SpacingExponent(n))
  {
    var k := SpacingExponent(n);
    var unit := Pow2(k);
    var m, e :| IsFloat(v, m, e);
    SpacingBounds(n);
    DivideByUnit(n, unit);
    var q := n / unit;
    QuotientAtLeast(n, unit, TWO_53 / 2);
    if TWO_53 / 2 * unit <= v {
      var j := LargeFloatsAreMultiples(v, m, e, k);
      MultiplesOutside(q, unit, j);
      HalfWay(n, q * unit, unit, v);
    } else {
      MulMonotone(TWO_53 / 2, q, unit);
      HalfWay(n, q * unit, unit, v);
    }
  }

  lemma QuotientAtLeast(n: nat, unit: nat, bound: nat)
    requires unit > 0 && bound * unit <= n
    ensures bound <= n / unit
  {
    DivideByUnit(n, unit);
    assert (n / unit + 1) * unit == n / unit * unit + unit;
    if n / unit < bound {
      MulMonotone(n / unit + 1, bound, unit);
    }
  }

  lemma HalfWay(n: nat, low: nat, unit: nat, v: nat)
    requires unit > 0 && low == n - n % unit && (v <= low || low + unit <= v)
    requires v != NearestMultiple(n, unit) && Distance(n, v) == Distance(n, NearestMultiple(n, unit))
    ensures 2 * (n % unit) == unit
  {
    NearestChoices(n, unit);
  }

  lemma EvenMultiple(n: nat, unit: nat)
    requires unit > 0 && 2 * (n % unit) == unit
    ensures exists q: nat :: q % 2 == 0 && NearestMultiple(n, unit) == q * unit
  {
    DivideByUnit(n, unit);
    var q := n / unit;
    if q % 2 == 0 {
      assert NearestMultiple(n, unit) == q * unit;
    } else {
      assert (q + 1) * unit == q * unit + unit;
      assert NearestMultiple(n, unit) == (q + 1) * unit;
    }
  }

  /** Below 2^53 a number is read back only where it was stored. */
  lemma OnlyItself(n: nat, q: nat)
    requires q < TWO_53
    ensures Round(n) == q <==> n == q
  {
    RoundExact(q);
    if n <= TWO_53 {
      RoundExact(n);
    } else {
      var m, e := TWO_53 / 2, 1;
      assert Pow2(1) == 2;
      assert IsFloat(TWO_53, m, e);
      RoundIsNearest(n, TWO_53);
    }
  }

  /** A number survives the round trip exactly when float64 can represent it. */
  lemma UnchangedIff(n: nat)
    ensures Round(n) == n <==> Representable(n)
  {
    RoundRepresentable(n);
    if Representable(n) {
      RoundIsNearest(n, n);
    }
  }

  /** From 2^53 to 2^64 - 2^10 - 1 the error is at most 2^10 and the result fits 64 bits. */
  lemma RoundError(n: nat)
    requires n < TWO_64 - 0x400
    ensures Distance(n, Round(n)) <= 0x400
    ensures Round(n) < TWO_64
  {
    SpacingBounds(n);
    NearestChoices(n, Pow2(SpacingExponent(n)));
    SmallSpacing(n);
    if SpacingExponent(n) < 11 {
      PowMonotone(SpacingExponent(n), 10);
      SmallPowers();
    }
  }

  lemma {:induction false} SpacingAtMost(n: nat, k: nat)
    requires n < TWO_53 * Pow2(k)
    ensures SpacingExponent(n) <= k
  {
    if n >= TWO_53 {
      SpacingAtMost(n / 2, k - 1);
    }
  }

  lemma {:induction false} SpacingMoreThan(n: nat, k: nat)
    requires n >= TWO_53 * Pow2(k)
    ensures SpacingExponent(n) > k
  {
    if k > 0 {
      SpacingMoreThan(n / 2, k - 1);
    }
  }

  lemma SmallSpacing(n: nat)
    requires n < TWO_64
    ensures SpacingExponent(n) <= 11 && Pow2(SpacingExponent(n)) <= 2048
  {
    SmallPowers();
    SpacingAtMost(n, 11);
    PowMonotone(SpacingExponent(n), 11);
  }

  lemma SmallPowers()
    ensures Pow2(10) == 1024 && Pow2(11) == 2048 && Pow2(12) == 4096
  {
    assert Pow2(4) == 16;
    assert Pow2(8) == 256;
  }

  /** The top 2^10 values round up to 2^64, which no uint64 can hold. */
  lemma RoundTop(n: nat)
    requires TWO_64 - 0x400 <= n < TWO_64
    ensures Round(n) == TWO_64
  {
    SpacingBounds(n);
    SmallSpacing(n);
    SmallPowers();
    SpacingMoreThan(n, 10);
    assert SpacingExponent(n) == 11;
    assert n / 2048 == TWO_53 - 1;
  }

  /** What uint64(2^64) yields: Go leaves it to the machine, so the value is left open here. */
  const OUT_OF_RANGE: Uint64

  /** uint64(f) */
  function ToUint64(f: nat): Uint64 {
    if f < TWO_64 then f else OUT_OF_RANGE
  }

  /** A uint64 stored as JSON, read back as float64 and converted to uint64 again. */
  function ReadBack(n: Uint64): Uint64 {
    ToUint64(Round(n))
  }

  /** The bound a caller can rely on: up to 2^53 nothing changes, so no two keys merge. */
  lemma ReadBackInjective(a: Uint64, b: Uint64)
    requires a <= TWO_53 && b <= TWO_53
    ensures ReadBack(a) == a && (ReadBack(a) == ReadBack(b) ==> a == b)
  {
    RoundExact(a);
    RoundExact(b);
  }

  /** The bound is sharp: 2^53 and 2^53 + 1 are read back as the same key. */
  lemma KeysMergeBeyondBound()
    ensures ReadBack(TWO_53 + 1) == ReadBack(TWO_53) == TWO_53
  {
    RoundExact(TWO_53);
    var n := TWO_53 + 1;
    assert SpacingExponent(TWO_53 / 2) == 0;
    assert n / 2 == TWO_53 / 2;
    assert SpacingExponent(n) == 1;
    assert Pow2(1) == 2 * Pow2(0);
    assert Pow2(1) == 2;
  }
}
