/**
 IEEE 754 binary64 values as 64-bit patterns, with the comparison the C++ operators perform and the
 rounding (to nearest, ties to even) that a conversion from a 64-bit integer performs.
 */
module Doubles {
  import opened Storage

  const SIGN_BIT: int := 0x8000_0000_0000_0000
  const INFINITY: int := 0x7FF0_0000_0000_0000
  const HIDDEN_BIT: int := 0x10_0000_0000_0000

  function Magnitude(d: U64): (m: int)
    ensures 0 <= m < SIGN_BIT
  {
    if d >= SIGN_BIT then d - SIGN_BIT else d
  }

  predicate IsNaN(d: U64) { Magnitude(d) > INFINITY }

  /** Position of a pattern in the order of the doubles; both zeros share position 0. */
  function Order(d: U64): int
  {
    if d >= SIGN_BIT then -Magnitude(d) else Magnitude(d)
  }

  /** The C++ `<` on doubles: false as soon as one side is not a number. */
  predicate Less(a: U64, b: U64) { !IsNaN(a) && !IsNaN(b) && Order(a) < Order(b) }

  function Pow2(n: nat): (p: nat)
    ensures p >= 1
  {
    if n == 0 then 1 else 2 * Pow2(n - 1)
  }

  lemma {:induction false} Pow2Add(a: nat, b: nat)
    ensures Pow2(a + b) == Pow2(a) * Pow2(b)
  {
    if a > 0 {
      Pow2Add(a - 1, b);
      assert Pow2(a) == 2 * Pow2(a - 1);
      MulAssociative(2, Pow2(a - 1), Pow2(b));
    }
  }

  lemma {:induction false} Pow2Monotone(a: nat, b: nat)
    requires a <= b
    ensures Pow2(a) <= Pow2(b)
    decreases b
  {
    if a < b { Pow2Monotone(a, b - 1); }
  }

  /** The number a non-NaN magnitude stands for, in units of 2^-1074 (infinity as the next binade). */
  function Scaled(magnitude: nat): nat
  {
    var exponent, fraction := magnitude / HIDDEN_BIT, magnitude % HIDDEN_BIT;
    if exponent == 0 then fraction else (HIDDEN_BIT + fraction) * Pow2(exponent - 1)
  }

  /** Comparing patterns compares the numbers: the pattern order is the numeric order. */
  lemma {:induction false} ScaledStrictlyMonotone(a: nat, b: nat)
    requires a < b
    ensures Scaled(a) < Scaled(b)
  {
    var ea, fa := a / HIDDEN_BIT, a % HIDDEN_BIT;
    var eb, fb := b / HIDDEN_BIT, b % HIDDEN_BIT;
    if ea == eb {
      if ea > 0 { MulStrict(HIDDEN_BIT + fa, HIDDEN_BIT + fb, Pow2(ea - 1)); }
    } else if ea == 0 {
      MulStrict(fa, HIDDEN_BIT + fb, Pow2(eb - 1));
      assert fa <= fa * Pow2(eb - 1) by { MulLow(fa, Pow2(eb - 1)); }
    } else {
      Pow2Monotone(ea, eb - 1);
      MulStrict(HIDDEN_BIT + fa, 2 * HIDDEN_BIT, Pow2(ea - 1));
      assert 2 * HIDDEN_BIT * Pow2(ea - 1) == HIDDEN_BIT * Pow2(ea);
      MulLow2(HIDDEN_BIT, HIDDEN_BIT + fb, Pow2(ea), Pow2(eb - 1));
    }
  }

  lemma {:induction false} MulStrict(a: nat, b: nat, p: nat)
    requires a < b && p >= 1
    ensures a * p < b * p
  {
  }

  lemma {:induction false} MulLow(a: nat, p: nat)
    requires p >= 1
    ensures a <= a * p
  {
  }

  lemma {:induction false} MulLow2(a: nat, b: nat, p: nat, q: nat)
    requires a <= b && p <= q
    ensures a * p <= b * q
  {
    assert a * p <= a * q by { MulMono(p, q, a); }
    assert a * q <= b * q by { MulMono(a, b, q); }
  }

  lemma {:induction false} MulMono(a: nat, b: nat, p: nat)
    requires a <= b
    ensures a * p <= b * p && p * a <= p * b
  {
  }

  /** Largest e with 2^e <= m. */
  function Log2(m: nat): (e: nat)
    requires m >= 1
    ensures Pow2(e) <= m < Pow2(e + 1)
  {
    if m == 1 then 0 else Log2(m / 2) + 1
  }

  /** m / q rounded to the nearest integer, ties to even. */
  function RoundHalfEven(m: nat, q: nat): (r: nat)
    requires q >= 1
  {
    RoundOf(m / q, m % q, q)
  }

  function RoundOf(down: nat, rest: nat, q: nat): nat {
    if 2 * rest < q || (2 * rest == q && down % 2 == 0) then down else down + 1
  }

  lemma {:induction false} DivMod(m: nat, q: nat)
    requires q >= 1
    ensures m == m / q * q + m % q && 0 <= m / q && 0 <= m % q < q
  {
  }

  lemma {:induction false} RoundOfMonotone(da: nat, ra: nat, db: nat, rb: nat, q: nat)
    requires da < db || (da == db && ra <= rb)
    ensures RoundOf(da, ra, q) <= RoundOf(db, rb, q)
  {
  }

  lemma {:induction false} RoundHalfEvenBounds(m: nat, q: nat)
    requires q >= 1
    ensures 0 - q <= 2 * (RoundHalfEven(m, q) * q - m) <= q
  {
    var down, rest := m / q, m % q;
    assert m == down * q + rest;
    assert (down + 1) * q == down * q + q;
  }

  lemma {:induction false} RoundHalfEvenMonotone(a: nat, b: nat, q: nat)
    requires a <= b && q >= 1
    ensures RoundHalfEven(a, q) <= RoundHalfEven(b, q)
  {
    hide RoundOf;
    DivMod(a, q);
    DivMod(b, q);
    QuotientMonotone(a / q, a % q, b / q, b % q, q);
    RoundOfMonotone(a / q, a % q, b / q, b % q, q);
  }

  lemma {:induction false} QuotientMonotone(da: nat, ra: nat, db: nat, rb: nat, q: nat)
    requires da * q + ra <= db * q + rb && rb < q
    ensures da <= db && (da == db ==> ra <= rb)
  {
    var above := if da > db then da else db + 1;
    MulMono(db + 1, above, q);
    assert (db + 1) * q == db * q + q;
  }

  /** Significand, 53 bits and possibly one carry, of the double nearest to m. */
  function Significand(m: nat): nat
    requires m >= 1
  {
    var e := Log2(m);
    if e <= 52 then m * Pow2(52 - e) else RoundHalfEven(m, Pow2(e - 52))
  }

  /** A carry out of the significand moves on to the next exponent by itself. */
  function NearestMagnitude(m: nat): int
    requires m >= 1
  {
    (Log2(m) + 1023) * HIDDEN_BIT + (Significand(m) - HIDDEN_BIT)
  }

  lemma {:induction false} Pow2Constants()
    ensures Pow2(52) == HIDDEN_BIT && Pow2(53) == 2 * HIDDEN_BIT && Pow2(63) == SIGN_BIT
  {
    assert Pow2(10) == 0x400;
    assert Pow2(20) == 0x10_0000;
    assert Pow2(30) == 0x4000_0000;
    assert Pow2(40) == 0x100_0000_0000;
    assert Pow2(52) == HIDDEN_BIT;
  }

  lemma {:induction false} SignificandRange(m: nat)
    requires m >= 1
    ensures HIDDEN_BIT <= Significand(m) <= 2 * HIDDEN_BIT
  {
    var e := Log2(m);
    Pow2Constants();
    if e <= 52 {
      ShiftRange(m, e, 52 - e);
    } else {
      var k := e - 52;
      assert Pow2(e) == HIDDEN_BIT * Pow2(k) by { Pow2Add(52, k); }
      assert Pow2(e + 1) == 2 * HIDDEN_BIT * Pow2(k);
      RoundRange(m, Pow2(k));
    }
  }

  lemma {:induction false} ShiftRange(m: nat, e: nat, k: nat)
    requires Pow2(e) <= m < Pow2(e + 1)
    ensures Pow2(e + k) <= m * Pow2(k) < Pow2(e + 1 + k)
  {
    Pow2Add(e, k);
    Pow2Add(e + 1, k);
    MulMono(Pow2(e), m, Pow2(k));
    MulStrict(m, Pow2(e + 1), Pow2(k));
  }

  lemma {:induction false} RoundRange(m: nat, q: nat)
    requires q >= 1 && HIDDEN_BIT * q <= m <= 2 * HIDDEN_BIT * q
    ensures HIDDEN_BIT <= RoundHalfEven(m, q) <= 2 * HIDDEN_BIT
  {
    RoundMultiple(HIDDEN_BIT, q);
    RoundMultiple(2 * HIDDEN_BIT, q);
    RoundHalfEvenMonotone(HIDDEN_BIT * q, m, q);
    RoundHalfEvenMonotone(m, 2 * HIDDEN_BIT * q, q);
  }

  lemma {:induction false} RoundMultiple(k: nat, q: nat)
    requires q >= 1
    ensures RoundHalfEven(k * q, q) == k
  {
    assert (k * q) / q == k && (k * q) % q == 0 by { DivMultiple(k, q); }
  }

  lemma {:induction false} DivMultiple(k: nat, q: nat)
    requires q >= 1
    ensures (k * q) / q == k && (k * q) % q == 0
  {
    var d, r := (k * q) / q, (k * q) % q;
    assert k * q == d * q + r;
    QuotientMonotone(d, r, k, 0, q);
    QuotientMonotone(k, 0, d, r, q);
  }

  lemma {:induction false} Log2Monotone(a: nat, b: nat)
    requires 1 <= a <= b
    ensures Log2(a) <= Log2(b)
  {
    Pow2Monotone(Log2(b) + 1, if Log2(a) > Log2(b) then Log2(a) else Log2(b) + 1);
  }

  lemma {:induction false} NearestMagnitudeMonotone(a: nat, b: nat)
    requires 1 <= a <= b
    ensures 0 < NearestMagnitude(a) <= NearestMagnitude(b)
  {
    SignificandRange(a);
    SignificandRange(b);
    Log2Monotone(a, b);
    var e := Log2(a);
    if e == Log2(b) {
      if e <= 52 {
        MulMono(a, b, Pow2(52 - e));
      } else {
        RoundHalfEvenMonotone(a, b, Pow2(e - 52));
      }
    }
  }

  function Abs(n: int): nat { if n < 0 then -n else n }

  /** The pattern of `static_cast<double>(n)`. */
  function FromInt(n: Key): (d: U64)
    ensures !IsNaN(d)
    ensures n == 0 ==> Order(d) == 0
    ensures n > 0 ==> Order(d) == NearestMagnitude(n)
    ensures n < 0 ==> Order(d) == -NearestMagnitude(Abs(n))
  {
    if n == 0 then 0
    else
      var m := Abs(n);
      assert 0 < NearestMagnitude(m) < INFINITY by {
        Pow2Constants();
        SignificandRange(m);
        assert Pow2(64) == 2 * SIGN_BIT;
        Pow2Monotone(64, if Log2(m) > 63 then Log2(m) else 64);
      }
      if n > 0 then NearestMagnitude(m) else SIGN_BIT + NearestMagnitude(m)
  }

  /** The conversion never reverses an order. */
  lemma {:induction false} FromIntMonotone(a: Key, b: Key)
    requires a <= b
    ensures Order(FromInt(a)) <= Order(FromInt(b))
  {
    if 0 < a {
      NearestMagnitudeMonotone(a, b);
    } else if b < 0 {
      NearestMagnitudeMonotone(Abs(b), Abs(a));
    } else {
      if a < 0 { NearestMagnitudeMonotone(Abs(a), Abs(a)); }
      if b > 0 { NearestMagnitudeMonotone(b, b); }
    }
  }

  /** Integers of at most 53 bits convert exactly; `one` is the number 1 in units of 2^-1074. */
  lemma {:induction false} FromIntExact(n: Key, unit: nat, one: nat)
    requires 0 < n < 2 * HIDDEN_BIT
    requires unit == 1074 && one == Pow2(unit)
    ensures Scaled(Magnitude(FromInt(n))) == n * one
  {
    var e := Log2(n);
    NearestMagnitudeExact(n, e);
    Pow2Add(52 - e, e + 1022);
    assert unit == 52 - e + (e + 1022);
    assert Magnitude(FromInt(n)) == NearestMagnitude(n) by { SignificandRange(n); }
  }

  lemma {:induction false} NearestMagnitudeExact(n: nat, e: nat)
    requires 0 < n < 2 * HIDDEN_BIT && e == Log2(n)
    ensures e <= 52 && NearestMagnitude(n) >= 0
    ensures Scaled(NearestMagnitude(n)) == n * (Pow2(52 - e) * Pow2(e + 1022))
  {
    SignificandExact(n, e);
    ScaledParts(e + 1023, Significand(n));
    MulAssociative(n, Pow2(52 - e), Pow2(e + 1022));
  }

  lemma {:induction false} ScaledParts(exponent: nat, significand: nat)
    requires exponent > 0 && HIDDEN_BIT <= significand < 2 * HIDDEN_BIT
    ensures Scaled(exponent * HIDDEN_BIT + (significand - HIDDEN_BIT)) == significand * Pow2(exponent - 1)
  {
    var m := exponent * HIDDEN_BIT + (significand - HIDDEN_BIT);
    assert m / HIDDEN_BIT == exponent && m % HIDDEN_BIT == significand - HIDDEN_BIT;
  }

  lemma {:induction false} ShiftTo53(n: nat, e: nat)
    requires Pow2(e) <= n < Pow2(e + 1) && n < 2 * HIDDEN_BIT
    ensures e <= 52 && HIDDEN_BIT <= n * Pow2(52 - e) < 2 * HIDDEN_BIT
  {
    hide Pow2;
    Pow2Constants();
    Pow2Monotone(53, if e > 52 then e else 53);
    ShiftRange(n, e, 52 - e);
  }

  lemma {:induction false} SignificandExact(n: nat, e: nat)
    requires 0 < n < 2 * HIDDEN_BIT && e == Log2(n)
    ensures e <= 52 && Significand(n) == n * Pow2(52 - e)
    ensures HIDDEN_BIT <= Significand(n) < 2 * HIDDEN_BIT
  {
    hide Pow2, Log2;
    ShiftTo53(n, e);
  }

  lemma {:induction false} MulAssociative(a: int, b: int, c: int)
    ensures a * b * c == a * (b * c)
  {
  }

  // ---------- The conversion is to nearest ----------

  /** The pattern with this significand, or with one carry or a little more, in units of its last place. */
  lemma {:induction false} ScaledAt(exponent: nat, t: nat)
    requires exponent > 0 && HIDDEN_BIT <= t <= 2 * HIDDEN_BIT + 1
    ensures Scaled(exponent * HIDDEN_BIT + (t - HIDDEN_BIT)) >= t * Pow2(exponent - 1)
    ensures t <= 2 * HIDDEN_BIT ==> Scaled(exponent * HIDDEN_BIT + (t - HIDDEN_BIT)) == t * Pow2(exponent - 1)
  {
    hide Scaled;
    if t < 2 * HIDDEN_BIT {
      ScaledParts(exponent, t);
    } else {
      var p := Pow2(exponent - 1);
      assert Pow2(exponent) == 2 * p;
      hide Pow2;
      var carried := t - HIDDEN_BIT;
      ScaledParts(exponent + 1, carried);
      assert exponent * HIDDEN_BIT + carried == (exponent + 1) * HIDDEN_BIT + (carried - HIDDEN_BIT);
      assert carried * (2 * p) == (2 * carried) * p by { MulAssociative(carried, 2, p); }
      MulMono(t, 2 * carried, p);
    }
  }

  /**
   In units of 2^-1074: a converted integer is its significand times the unit in its last place, the next
   double is at least one such unit away, and so is the one before it, unless it starts a binade.
   */
  lemma {:induction false} NearestIs(n: nat, one: nat, unit: nat)
    requires n >= 1 && Log2(n) >= 53 && unit == 1074 && one == Pow2(unit)
    ensures var s, mag, place := Significand(n), NearestMagnitude(n), Pow2(Log2(n) - 52) * one;
            && mag > 0 && HIDDEN_BIT <= s <= 2 * HIDDEN_BIT && Scaled(mag) == s * place
            && Scaled(mag + 1) >= (s + 1) * place
            && (s > HIDDEN_BIT ==> Scaled(mag - 1) == (s - 1) * place)
  {
    hide Significand, Scaled, Log2, Pow2;
    var e, s := Log2(n), Significand(n);
    SignificandRange(n);
    Pow2Add(e - 52, unit);
    assert e - 52 + unit == e + 1022;
    Neighbours(e, s, Pow2(e - 52) * one);
  }

  lemma {:induction false} Neighbours(e: nat, s: nat, place: nat)
    requires HIDDEN_BIT <= s <= 2 * HIDDEN_BIT && place == Pow2(e + 1022)
    ensures var mag := (e + 1023) * HIDDEN_BIT + (s - HIDDEN_BIT);
            && mag > 0 && Scaled(mag) == s * place && Scaled(mag + 1) >= (s + 1) * place
            && (s > HIDDEN_BIT ==> Scaled(mag - 1) == (s - 1) * place)
  {
    hide Scaled, Pow2;
    ScaledAt(e + 1023, s);
    ScaledAt(e + 1023, s + 1);
    if s > HIDDEN_BIT { ScaledAt(e + 1023, s - 1); }
  }

  function Gap(a: int, b: int): nat { Abs(a - b) }

  /** Of a number and those at least a unit away from it, the one within half a unit is the nearer. */
  lemma {:induction false} HalfGap(x: int, y: int, z: int, other: int)
    requires 0 - z <= 2 * (x - y) <= z
    requires other >= x + z || other <= x - z || other == x
    ensures Gap(x, y) <= Gap(other, y)
  {
  }

  lemma {:induction false} Multiples(s: int, z: int)
    ensures (s + 1) * z == s * z + z && (s - 1) * z == s * z - z
  {
  }

  lemma {:induction false} HalfScaled(d: int, q: nat, one: nat)
    requires 0 - q <= 2 * d <= q
    ensures 0 - q * one <= 2 * (d * one) <= q * one
  {
    MulAssociative(2, Abs(d), one);
    MulMono(2 * Abs(d), q, one);
    assert d * one == Abs(d) * one || d * one == -(Abs(d) * one);
  }

  /** Of two multiples of a unit, the one within half a unit is the nearer. */
  lemma {:induction false} HalfUnit(s: nat, q: nat, n: nat, one: nat, other: nat)
    requires 0 - q <= 2 * (s * q - n) <= q
    requires other >= (s + 1) * (q * one) || (s >= 1 && other <= (s - 1) * (q * one)) || other == s * (q * one)
    ensures Gap(s * (q * one), n * one) <= Gap(other, n * one)
  {
    var x, y, z := s * (q * one), n * one, q * one;
    Multiples(s, z);
    MulAssociative(s, q, one);
    HalfScaled(s * q - n, q, one);
    Difference(s * q, n, one);
    HalfGap(x, y, z, other);
  }

  lemma {:induction false} Difference(a: int, b: int, one: int)
    ensures (a - b) * one == a * one - b * one
  {
  }

  /**
   No double is nearer to an integer than the one it converts to: for the magnitude of any double,
   in units of 2^-1074, of which the number 1 has `one`.
   */
  lemma {:induction false} FromIntNearest(n: Key, magnitude: nat, one: nat, unit: nat)
    requires unit == 1074 && one == Pow2(unit)
    ensures Gap(Scaled(Magnitude(FromInt(n))), Abs(n) * one) <= Gap(Scaled(magnitude), Abs(n) * one)
  {
    var m := Abs(n);
    if m == 0 {
      assert Scaled(0) == 0;
    } else {
      SignificandRange(m);
      assert Magnitude(FromInt(n)) == NearestMagnitude(m);
      if Log2(m) <= 52 {
        SmallIsExact(m, unit, one);
      } else {
        LargeIsNearest(m, magnitude, one, unit);
      }
    }
  }

  lemma {:induction false} SmallIsExact(m: nat, unit: nat, one: nat)
    requires m >= 1 && Log2(m) <= 52 && unit == 1074 && one == Pow2(unit)
    ensures NearestMagnitude(m) > 0 && Scaled(NearestMagnitude(m)) == m * one
  {
    Pow2Constants();
    Pow2Monotone(Log2(m) + 1, 53);
    FromIntExact(m, unit, one);
    SignificandRange(m);
  }

  /** Of two numbers that are not above the integer, the greater is the nearer. */
  lemma {:induction false} StartIsNearest(s: nat, q: nat, n: nat, one: nat, other: nat)
    requires s * q <= n && other <= s * (q * one)
    ensures Gap(s * (q * one), n * one) <= Gap(other, n * one)
  {
    MulAssociative(s, q, one);
    MulMono(s * q, n, one);
  }

  lemma {:induction false} LargeIsNearest(m: nat, x: nat, one: nat, unit: nat)
    requires m >= 1 && Log2(m) >= 53 && unit == 1074 && one == Pow2(unit)
    ensures NearestMagnitude(m) > 0
    ensures Gap(Scaled(NearestMagnitude(m)), m * one) <= Gap(Scaled(x), m * one)
  {
    hide Significand, NearestMagnitude, Scaled, RoundHalfEven, Pow2, Log2, Gap;
    var q, s, mag := Pow2(Log2(m) - 52), Significand(m), NearestMagnitude(m);
    NearestIs(m, one, unit);
    assert 0 - q <= 2 * (s * q - m) <= q by { SignificandNear(m); }
    if x > mag {
      if x > mag + 1 { ScaledStrictlyMonotone(mag + 1, x); }
      HalfUnit(s, q, m, one, Scaled(x));
    } else if x < mag {
      if s > HIDDEN_BIT {
        if x < mag - 1 { ScaledStrictlyMonotone(x, mag - 1); }
        HalfUnit(s, q, m, one, Scaled(x));
      } else {
        ScaledStrictlyMonotone(x, mag);
        BinadeStart(m);
        StartIsNearest(s, q, m, one, Scaled(x));
      }
    }
  }

  lemma {:induction false} SignificandNear(m: nat)
    requires m >= 1 && Log2(m) >= 53
    ensures var q := Pow2(Log2(m) - 52); 0 - q <= 2 * (Significand(m) * q - m) <= q
  {
    RoundHalfEvenBounds(m, Pow2(Log2(m) - 52));
  }

  /** A number that rounds to the start of its binade is not below it. */
  lemma {:induction false} BinadeStart(m: nat)
    requires m >= 1 && Log2(m) >= 53
    ensures HIDDEN_BIT * Pow2(Log2(m) - 52) <= m
  {
    Pow2Constants();
    Pow2Add(52, Log2(m) - 52);
  }

  // ---------- Ties go to the even pattern ----------

  /** `below` and `rounded` are the multiples of q at the quotient and at the rounded one. */
  lemma {:induction false} RoundOfTie(down: nat, rest: nat, q: nat, below: nat, rounded: nat)
    requires rest < q && rounded == if RoundOf(down, rest, q) == down then below else below + q
    requires 2 * (rounded - (below + rest)) == q || 2 * (rounded - (below + rest)) == 0 - q
    ensures RoundOf(down, rest, q) % 2 == 0
  {
  }

  lemma {:induction false} RoundOfIs(down: nat, rest: nat, q: nat)
    ensures RoundOf(down, rest, q) == down || RoundOf(down, rest, q) == down + 1
  {
  }

  lemma {:induction false} RoundTieEven(m: nat, q: nat)
    requires q >= 1
    requires var d := 2 * (RoundHalfEven(m, q) * q - m); d == q || d == 0 - q
    ensures RoundHalfEven(m, q) % 2 == 0
  {
    hide RoundOf;
    DivMod(m, q);
    var down, rest := m / q, m % q;
    var r := RoundOf(down, rest, q);
    RoundOfIs(down, rest, q);
    assert r * q == if r == down then down * q else down * q + q by { Multiples(down, q); }
    RoundOfTie(down, rest, q, down * q, r * q);
  }

  lemma {:induction false} Cancelled(d: int, q: int, one: nat)
    requires one >= 1 && d * one == q * one
    ensures d == q
  {
    if d < q {
      MulStrict(0, q - d, one);
      Difference(q, d, one);
    } else if q < d {
      MulStrict(0, d - q, one);
      Difference(d, q, one);
    }
  }

  /** Only half a unit away can another multiple of the unit be as near. */
  lemma {:induction false} TieAtHalf(s: nat, q: nat, n: nat, one: nat, other: nat)
    requires 0 - q <= 2 * (s * q - n) <= q && one >= 1
    requires other >= (s + 1) * (q * one) || (s >= 1 && other <= (s - 1) * (q * one))
    requires Gap(s * (q * one), n * one) == Gap(other, n * one)
    ensures 2 * (s * q - n) == q || 2 * (s * q - n) == 0 - q
  {
    var z := q * one;
    Multiples(s, z);
    MulAssociative(s, q, one);
    HalfScaled(s * q - n, q, one);
    Difference(s * q, n, one);
    var d := s * q - n;
    assert 2 * (d * one) == z || 2 * (d * one) == 0 - z;
    MulAssociative(2, d, one);
    if 2 * (d * one) == z { Cancelled(2 * d, q, one); } else { Cancelled(2 * d, 0 - q, one); }
  }

  lemma {:induction false} SameParity(e: nat, s: nat)
    requires HIDDEN_BIT <= s
    ensures ((e + 1023) * HIDDEN_BIT + (s - HIDDEN_BIT)) % 2 == s % 2
  {
  }

  lemma {:induction false} LargeTieIsEven(m: nat, x: nat, one: nat, unit: nat)
    requires m >= 1 && Log2(m) >= 53 && unit == 1074 && one == Pow2(unit) && NearestMagnitude(m) > 0
    requires Scaled(x) != Scaled(NearestMagnitude(m))
    requires Gap(Scaled(NearestMagnitude(m)), m * one) == Gap(Scaled(x), m * one)
    ensures NearestMagnitude(m) % 2 == 0
  {
    hide Significand, Scaled, RoundHalfEven, Pow2, Log2, Gap;
    var q, s, mag := Pow2(Log2(m) - 52), Significand(m), NearestMagnitude(m);
    NearestIs(m, one, unit);
    SameParity(Log2(m), s);
    assert 0 - q <= 2 * (s * q - m) <= q by { SignificandNear(m); }
    if s > HIDDEN_BIT || x > mag {
      if x > mag + 1 { ScaledStrictlyMonotone(mag + 1, x); }
      if x < mag - 1 { ScaledStrictlyMonotone(x, mag - 1); }
      TieAtHalf(s, q, m, one, Scaled(x));
      SignificandTie(m);
    }
  }

  lemma {:induction false} SignificandTie(m: nat)
    requires m >= 1 && Log2(m) >= 53
    requires var q := Pow2(Log2(m) - 52); var d := 2 * (Significand(m) * q - m); d == q || d == 0 - q
    ensures Significand(m) % 2 == 0
  {
    RoundTieEven(m, Pow2(Log2(m) - 52));
  }

  lemma {:induction false} TieIsEven(n: Key, x: nat, one: nat, unit: nat)
    requires unit == 1074 && one == Pow2(unit)
    requires Scaled(x) != Scaled(Magnitude(FromInt(n)))
    requires Gap(Scaled(Magnitude(FromInt(n))), Abs(n) * one) == Gap(Scaled(x), Abs(n) * one)
    ensures Magnitude(FromInt(n)) % 2 == 0
  {
    hide Scaled, Pow2, Log2, Significand;
    var m := Abs(n);
    if m == 0 {
    } else {
      SignificandRange(m);
      assert Magnitude(FromInt(n)) == NearestMagnitude(m);
      if Log2(m) <= 52 {
        SmallIsExact(m, unit, one);
      } else {
        LargeTieIsEven(m, x, one, unit);
      }
    }
  }

  // ---------- Patterns as numbers ----------

  /** The number that a pattern stands for, by its sign, exponent and fraction fields, in units of 2^-1074. */
  function Number(d: U64): int {
    var exponent, fraction := d / HIDDEN_BIT % 2048, d % HIDDEN_BIT;
    var size := if exponent == 0 then fraction else (HIDDEN_BIT + fraction) * Pow2(exponent - 1);
    if d / SIGN_BIT == 1 then -size else size
  }

  lemma {:induction false} Fields(d: U64)
    ensures d / SIGN_BIT == 1 <==> d >= SIGN_BIT
    ensures d / HIDDEN_BIT % 2048 == Magnitude(d) / HIDDEN_BIT
    ensures d % HIDDEN_BIT == Magnitude(d) % HIDDEN_BIT
  {
    assert SIGN_BIT == 2048 * HIDDEN_BIT;
  }

  /** All ones in the exponent and a fraction. */
  lemma {:induction false} NaNFields(d: U64)
    ensures IsNaN(d) <==> d / HIDDEN_BIT % 2048 == 2047 && d % HIDDEN_BIT != 0
  {
    Fields(d);
  }

  function Signed(negative: bool, size: nat): int { if negative then 0 - size else size }

  lemma {:induction false} NumberOf(d: U64)
    ensures Number(d) == Signed(d >= SIGN_BIT, Scaled(Magnitude(d)))
  {
    hide Pow2;
    Fields(d);
  }

  /** The order of the patterns is the order of their numbers. */
  lemma {:induction false} OrderIsNumeric(a: U64, b: U64)
    ensures Order(a) < Order(b) <==> Number(a) < Number(b)
    ensures Order(a) == Order(b) <==> Number(a) == Number(b)
  {
    hide Number, Scaled;
    NumberOf(a);
    NumberOf(b);
    var x, y := Magnitude(a), Magnitude(b);
    assert Scaled(0) == 0 by { ScaledZero(); }
    if x < y { ScaledStrictlyMonotone(x, y); }
    if y < x { ScaledStrictlyMonotone(y, x); }
    if 0 < x { ScaledStrictlyMonotone(0, x); }
    if 0 < y { ScaledStrictlyMonotone(0, y); }
  }

  lemma {:induction false} ScaledZero()
    ensures Scaled(0) == 0
  {
  }

  /** What holds of sizes holds of numbers: a number of the other sign is no nearer than 0. */
  lemma {:induction false} SignedGap(n: bool, c: nat, y: nat, other: bool, d: nat)
    requires Gap(c, y) <= Gap(d, y) && Gap(c, y) <= Gap(0, y)
    ensures Gap(Signed(n, c), Signed(n, y)) <= Gap(Signed(other, d), Signed(n, y))
    ensures Gap(Signed(n, c), Signed(n, y)) == Gap(Signed(other, d), Signed(n, y)) && Signed(other, d) != Signed(n, c)
            ==> (Gap(c, y) == Gap(d, y) && c != d) || (Gap(c, y) == Gap(0, y) && c != 0)
  {
  }

  lemma {:induction false} SignedTimes(n: int, one: nat)
    ensures n * one == Signed(n < 0, Abs(n) * one)
  {
  }

  /**
   An integer converts to the nearest double, of which the number 1 is `one`; where two are equally near,
   to the one whose last bit is even.
   */
  lemma {:induction false} FromIntRounds(n: Key, d: U64, one: nat, unit: nat)
    requires unit == 1074 && one == Pow2(unit)
    ensures Gap(Number(FromInt(n)), n * one) <= Gap(Number(d), n * one)
    ensures Gap(Number(FromInt(n)), n * one) == Gap(Number(d), n * one) && Number(d) != Number(FromInt(n))
            ==> FromInt(n) % 2 == 0
  {
    hide Number, Scaled, Pow2, FromInt, Magnitude, Gap, Abs;
    var c, m := FromInt(n), Abs(n);
    SignOf(n);
    NumberOf(c);
    NumberOf(d);
    SignedTimes(n, one);
    ScaledZero();
    FromIntNearest(n, Magnitude(d), one, unit);
    FromIntNearest(n, 0, one, unit);
    SignedGap(n < 0, Scaled(Magnitude(c)), m * one, d >= SIGN_BIT, Scaled(Magnitude(d)));
    if Gap(Number(c), n * one) == Gap(Number(d), n * one) && Number(d) != Number(c) {
      var x := if Gap(Scaled(Magnitude(c)), m * one) == Gap(Scaled(Magnitude(d)), m * one)
                  && Scaled(Magnitude(c)) != Scaled(Magnitude(d)) then Magnitude(d) else 0;
      TieIsEven(n, x, one, unit);
      EvenMagnitude(c);
    }
  }

  lemma {:induction false} EvenMagnitude(d: U64)
    ensures d % 2 == Magnitude(d) % 2
  {
  }

  lemma {:induction false} SignOf(n: Key)
    ensures FromInt(n) >= SIGN_BIT <==> n < 0
  {
    hide Scaled, Pow2, Significand;
    if n != 0 { SignificandRange(Abs(n)); }
  }
}
