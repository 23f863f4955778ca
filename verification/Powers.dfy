/** Powers in a commutative monoid, and the exponents that take an element to the unit. */
module Powers {
  function Power<T>(times: (T, T) -> T, unit: T, x: T, n: nat): T {
    if n == 0 then unit else times(x, Power(times, unit, x, n - 1))
  }

  /** The associative and the commutative law for these factors. */
  ghost predicate Lawful<T>(times: (T, T) -> T, x: T, y: T, z: T) {
    times(times(x, y), z) == times(x, times(y, z)) && times(x, y) == times(y, x)
  }

  ghost predicate Neutral<T>(times: (T, T) -> T, unit: T, x: T) {
    times(unit, x) == x
  }

  ghost predicate Monoid<T(!new)>(times: (T, T) -> T, unit: T) {
    (forall x, y, z :: Lawful(times, x, y, z)) && (forall x :: Neutral(times, unit, x))
  }

  lemma {:induction false} PowerAdd<T(!new)>(times: (T, T) -> T, unit: T, x: T, m: nat, n: nat)
    requires Monoid(times, unit)
    ensures Power(times, unit, x, m + n) == times(Power(times, unit, x, m), Power(times, unit, x, n))
  {
    if m == 0 {
      assert Neutral(times, unit, Power(times, unit, x, n));
    } else {
      PowerAdd(times, unit, x, m - 1, n);
      assert Lawful(times, x, Power(times, unit, x, m - 1), Power(times, unit, x, n));
    }
  }

  lemma {:induction false} PowerTimes<T(!new)>(times: (T, T) -> T, unit: T, x: T, y: T, n: nat)
    requires Monoid(times, unit)
    ensures Power(times, unit, times(x, y), n) == times(Power(times, unit, x, n), Power(times, unit, y, n))
  {
    if n == 0 {
      assert Neutral(times, unit, unit);
    } else {
      PowerTimes(times, unit, x, y, n - 1);
      Regroup(times, unit, x, y, Power(times, unit, x, n - 1), Power(times, unit, y, n - 1));
    }
  }

  lemma {:induction false} PowerNonzero<T(!new)>(times: (T, T) -> T, unit: T, zero: T, x: T, n: nat)
    requires x != zero && unit != zero
    requires forall y, z {:trigger times(y, z)} :: y != zero && z != zero ==> times(y, z) != zero
    ensures Power(times, unit, x, n) != zero
  {
    if n > 0 {
      PowerNonzero(times, unit, zero, x, n - 1);
    }
  }

  lemma Regroup<T(!new)>(times: (T, T) -> T, unit: T, a: T, b: T, c: T, d: T)
    requires Monoid(times, unit)
    ensures times(times(a, b), times(c, d)) == times(times(a, c), times(b, d))
  {
    assert Lawful(times, a, b, times(c, d)) && Lawful(times, b, c, d);
    assert Lawful(times, c, b, d) && Lawful(times, a, c, times(b, d));
  }

  // ---------- Periods ----------

  predicate Period<T(==)>(times: (T, T) -> T, unit: T, x: T, n: nat) {
    Power(times, unit, x, n) == unit
  }

  lemma PeriodSum<T(!new)>(times: (T, T) -> T, unit: T, x: T, m: nat, n: nat)
    requires Monoid(times, unit) && Period(times, unit, x, m)
    ensures Period(times, unit, x, m + n) <==> Period(times, unit, x, n)
  {
    PowerAdd(times, unit, x, m, n);
    assert Neutral(times, unit, Power(times, unit, x, n));
  }

  lemma {:induction false} PeriodMultiple<T(!new)>(times: (T, T) -> T, unit: T, x: T, g: nat, k: nat)
    requires Monoid(times, unit) && Period(times, unit, x, g)
    ensures Period(times, unit, x, k * g)
  {
    if k > 0 {
      PeriodMultiple(times, unit, x, g, k - 1);
      PeriodSum(times, unit, x, g, (k - 1) * g);
      assert k * g == g + (k - 1) * g;
    }
  }

  /** Two periods have a common divisor that is a period: Euclid's algorithm. */
  lemma {:induction false} CommonPeriod<T(!new)>(times: (T, T) -> T, unit: T, x: T, m: nat, n: nat)
    returns (g: nat, a: nat, b: nat)
    requires Monoid(times, unit) && 0 < m && 0 < n
    requires Period(times, unit, x, m) && Period(times, unit, x, n)
    ensures Period(times, unit, x, g) && m == a * g && n == b * g
    decreases m + n
  {
    if m == n {
      g, a, b := m, 1, 1;
    } else if m < n {
      PeriodSum(times, unit, x, m, n - m);
      g, a, b := CommonPeriod(times, unit, x, m, n - m);
      assert (a + b) * g == a * g + b * g;
      b := a + b;
    } else {
      PeriodSum(times, unit, x, n, m - n);
      g, a, b := CommonPeriod(times, unit, x, m - n, n);
      assert (a + b) * g == a * g + b * g;
      a := a + b;
    }
  }

  // ---------- Square and multiply ----------

  lemma PowerSum<T(!new)>(times: (T, T) -> T, unit: T, x: T, m: nat, n: nat, a: T, b: T, c: T)
    requires Monoid(times, unit)
    requires Power(times, unit, x, m) == a && Power(times, unit, x, n) == b && times(a, b) == c
    ensures Power(times, unit, x, m + n) == c
  {
    PowerAdd(times, unit, x, m, n);
  }

  lemma PowerChain<T(!new)>(times: (T, T) -> T, unit: T, x: T, x2: T, x4: T, x8: T, x16: T, x32: T, x33: T, x5: T,
                            x21: T)
    requires Monoid(times, unit)
    requires times(x, x) == x2 && times(x2, x2) == x4 && times(x4, x4) == x8
    requires times(x8, x8) == x16 && times(x16, x16) == x32 && times(x32, x) == x33
    requires times(x4, x) == x5 && times(x16, x5) == x21
    ensures Power(times, unit, x, 8) == x8 && Power(times, unit, x, 32) == x32
    ensures Power(times, unit, x, 21) == x21 && Power(times, unit, x, 33) == x33
  {
    assert Lawful(times, x, unit, unit) && Neutral(times, unit, x);
    PowerSum(times, unit, x, 1, 1, x, x, x2);
    PowerSum(times, unit, x, 2, 2, x2, x2, x4);
    PowerSum(times, unit, x, 4, 4, x4, x4, x8);
    PowerSum(times, unit, x, 8, 8, x8, x8, x16);
    PowerSum(times, unit, x, 16, 16, x16, x16, x32);
    PowerSum(times, unit, x, 32, 1, x32, x, x33);
    PowerSum(times, unit, x, 4, 1, x4, x, x5);
    PowerSum(times, unit, x, 16, 5, x16, x5, x21);
  }

  lemma PowerChainEnd<T(!new)>(times: (T, T) -> T, unit: T, x: T, x8: T, x32: T, x21: T, x64: T, x128: T, x256: T,
                               x85: T, x93: T, x341: T)
    requires Monoid(times, unit)
    requires Power(times, unit, x, 8) == x8 && Power(times, unit, x, 32) == x32 && Power(times, unit, x, 21) == x21
    requires times(x32, x32) == x64 && times(x64, x64) == x128 && times(x128, x128) == x256
    requires times(x64, x21) == x85 && times(x85, x8) == x93 && times(x85, x256) == x341
    ensures Power(times, unit, x, 93) == x93 && Power(times, unit, x, 341) == x341
  {
    PowerSum(times, unit, x, 32, 32, x32, x32, x64);
    PowerSum(times, unit, x, 64, 64, x64, x64, x128);
    PowerSum(times, unit, x, 128, 128, x128, x128, x256);
    PowerSum(times, unit, x, 64, 21, x64, x21, x85);
    PowerSum(times, unit, x, 85, 8, x85, x8, x93);
    PowerSum(times, unit, x, 85, 256, x85, x256, x341);
  }

  // ---------- The order 1023 = 3 * 11 * 31 ----------

  lemma SmallDivisor(a: nat, d: nat)
    requires a * d == 1023 && d <= 31
    ensures d == 1 || d == 3 || d == 11 || d == 31
  {
    match d
    case 0 => case 2 => case 4 => case 5 => case 6 => case 7 => case 8 => case 9 => case 10 => case 12 => case 13 =>
    case 14 => case 15 => case 16 => case 17 => case 18 => case 19 => case 20 => case 21 => case 22 => case 23 =>
    case 24 => case 25 => case 26 => case 27 => case 28 => case 29 => case 30 =>
    case _ =>
  }

  lemma LargeFactors(a: nat, g: nat)
    ensures a > 31 && g > 31 ==> a * g > 1023
    ensures a * g == g * a
  {
    if a > 31 && g > 31 {
      assert a * g >= 32 * g;
    }
  }

  lemma ProperDivisor(a: nat, g: nat)
    requires a * g == 1023 && g < 1023
    ensures g == 1 || g == 3 || g == 11 || g == 31 || g == 33 || g == 93 || g == 341
  {
    if g <= 31 {
      SmallDivisor(a, g);
    } else {
      LargeFactors(a, g);
      SmallDivisor(g, a);
    }
  }

  /** An element of period 1023, but of none of the periods 33, 93 and 341, has no smaller period. */
  lemma OrderIs1023<T(!new)>(times: (T, T) -> T, unit: T, x: T, d: nat)
    requires Monoid(times, unit) && Period(times, unit, x, 1023) && 0 < d < 1023
    requires !Period(times, unit, x, 33) && !Period(times, unit, x, 93) && !Period(times, unit, x, 341)
    ensures !Period(times, unit, x, d)
  {
    if Period(times, unit, x, d) {
      var g, a, b := CommonPeriod(times, unit, x, d, 1023);
      DivisorBound(a, g, d);
      ProperDivisor(b, g);
      PeriodMultiple(times, unit, x, g, 33);
      PeriodMultiple(times, unit, x, g, 11);
      PeriodMultiple(times, unit, x, g, 3);
    }
  }

  lemma DivisorBound(a: nat, g: nat, d: nat)
    requires d == a * g && d > 0
    ensures g <= d
  {
  }

  /** The products of squaring and multiplying on the way to the powers 33, 93 and 341. */
  predicate Products<T(==)>(times: (T, T) -> T, x: T, x2: T, x4: T, x8: T, x16: T, x32: T, x33: T, x5: T, x21: T,
                            x64: T, x128: T, x256: T, x85: T, x93: T, x341: T) {
    && times(x, x) == x2 && times(x2, x2) == x4 && times(x4, x4) == x8
    && times(x8, x8) == x16 && times(x16, x16) == x32 && times(x32, x) == x33
    && times(x4, x) == x5 && times(x16, x5) == x21
    && times(x32, x32) == x64 && times(x64, x64) == x128 && times(x128, x128) == x256
    && times(x64, x21) == x85 && times(x85, x8) == x93 && times(x85, x256) == x341
  }

  /** The same from the products of squaring and multiplying. */
  lemma OrderFromProducts<T(!new)>(times: (T, T) -> T, unit: T, x: T, x2: T, x4: T, x8: T, x16: T, x32: T, x33: T,
                                   x5: T, x21: T, x64: T, x128: T, x256: T, x85: T, x93: T, x341: T, d: nat)
    requires Monoid(times, unit) && 0 < d < 1023
    requires Products(times, x, x2, x4, x8, x16, x32, x33, x5, x21, x64, x128, x256, x85, x93, x341)
    requires times(x341, times(x341, x341)) == unit && x33 != unit && x93 != unit && x341 != unit
    ensures !Period(times, unit, x, d)
  {
    PowerChain(times, unit, x, x2, x4, x8, x16, x32, x33, x5, x21);
    PowerChainEnd(times, unit, x, x8, x32, x21, x64, x128, x256, x85, x93, x341);
    PowerSum(times, unit, x, 341, 341, x341, x341, times(x341, x341));
    PowerSum(times, unit, x, 341, 682, x341, times(x341, x341), unit);
    OrderIs1023(times, unit, x, d);
  }
}
