/** How far the decimal text is from a double below 1/2, whose scaling loop is long. */
module SmallDecimals {
  import opened Words
  import opened Digits
  import opened Doubles
  import opened DecimalFloats
  import opened DecimalAccuracy

  // ---------- so small that every place is 0 ----------

  /** The zeros written so far hold the exponent back: at most three halvings follow each. */
  predicate Slow(f: Frac, start: int, prec: nat) {
    var ahead := f.x - start - 4 * (prec - f.left);
    && f.left <= prec && f.digit == 0 && f.man < WORD32 && ahead <= 3
    && (ahead >= 1 ==> f.man < WORD32 / 2) && (ahead >= 2 ==> f.man < WORD32 / 4) && (ahead >= 3 ==> f.man < WORD32 / 8)
  }

  lemma {:induction false} SlowRun(f: Frac, start: int, prec: nat)
    requires Slow(f, start, prec) && start <= -252 && prec <= 62
    ensures FracRun(f).left == 0 && FracRun(f).x < 0
    decreases 4 - f.x
  {
    if f.left > 0 {
      SlowRun(FracStep(f), start, prec);
    }
  }

  lemma TinyIsZero(bits: nat, prec: nat)
    requires Exponent(bits) <= -253 && prec <= 62
    ensures Unrounded(bits, prec) == 0 && Rounding(bits, prec) == 0
  {
    SlowRun(FracStart(bits, prec), Exponent(bits) + 1, prec);
    NoScaling(bits);
    assert Power(10, prec) * (Power(10, 0) * 0) == 0;
  }

  lemma {:induction false} TenBelowSixteen(n: nat)
    ensures Power(10, n) <= Power(2, 4 * n)
  {
    if n > 0 {
      TenBelowSixteen(n - 1);
      PowerSum(2, 4, 4 * (n - 1));
      assert Power(2, 4) == 16;
    }
  }

  lemma TwoGrows(m: nat, n: nat)
    requires m <= n
    ensures Power(2, m) <= Power(2, n)
  {
    PowerSum(2, m, n - m);
    PowerPositive(2, n - m);
    MulMono(Power(2, m), 1, Power(2, n - m));
  }

  lemma TinyIsBelowHalf(m: nat, prec: nat, e: int)
    requires m < 2 * HIDDEN && prec <= 62 && e <= -253
    ensures 2 * (m * 2048 * Power(10, prec)) <= Power(2, 63 - e)
  {
    TenBelowSixteen(prec);
    TwoGrows(4 * prec, 248);
    PowersOfTwo();
    PowerSum(2, 64, 248);
    TwoGrows(313, 63 - e);
    ProductGrows(m * 2048, Power(10, prec), Power(2, 64), Power(2, 248));
    assert Power(2, 313) == 2 * Power(2, 312);
  }

  lemma ProductGrows(a: nat, p: nat, b: nat, q: nat)
    requires a <= b && p <= q
    ensures a * p <= b * q
  {
    MulMono(a, p, q);
    MulMono(q, a, b);
    assert a * q == q * a && b * q == q * b;
  }

  // ---------- the error of the scaling ----------

  const PARTS: nat := 0x800_0000  // 2^27

  /** `man` stays large, so that what a step loses is little of it. */
  predicate Big(f: Frac) {
    && (f.digit == 0 ==> f.man >= 429496729)
    && (f.digit == 1 ==> f.man >= (if f.x <= 1 then 2147483645 else if f.x == 2 then 1073741822
                                   else if f.x == 3 then 536870911 else 268435455))
  }

  lemma BigStep(f: Frac)
    requires Tame(f) && Big(f) && f.left > 0 && f.x < 4
    ensures Big(FracStep(f))
  {
    TameStep(f);
  }

  /** man * unit is the scaled number, off by at most `n` parts in 2^27. */
  predicate Near(man: nat, scaled: nat, unit: nat, n: nat) {
    -(n as int) * scaled <= PARTS * (scaled - man * unit) <= n * scaled
  }

  /** One unit is at most a part. */
  lemma UnitIsPart(man: nat, scaled: nat, unit: nat, n: nat)
    requires Near(man, scaled, unit, n) && man >= 268435455 && n <= 256
    ensures PARTS * unit <= scaled
  {
    MulMono(unit, 268435455, man);
    assert unit * 268435455 == 268435455 * unit && man * unit == unit * man;
    MulMono(scaled, n, 256);
    assert n * scaled == scaled * n;
  }

  lemma NearHalved(man: nat, scaled: nat, unit: nat, n: nat)
    requires Near(man, scaled, unit, n) && man >= 268435455 && n <= 256
    ensures Near(man / 2, scaled, 2 * unit, n + 1)
  {
    UnitIsPart(man, scaled, unit, n);
    Halved(man, unit);
    Bit(man % 2, unit);
    assert (n + 1) * scaled == n * scaled + scaled;
  }

  lemma NearFivefold(man: nat, carry: nat, scaled: nat, unit: nat, n: nat)
    requires Near(man, scaled, unit, n) && man >= 268435455 && n <= 256 && carry <= 1
    ensures Near(man * 5 + 3 * carry, 10 * scaled, 2 * unit, n + 1)
  {
    UnitIsPart(man, scaled, unit, n);
    FiveTimes(man, carry, unit);
    Bit(carry, unit);
    assert (n + 1) * (10 * scaled) == 10 * (n * scaled) + 10 * scaled;
  }

  /** The number scaled by the places filled, and the unit it is held in. */
  function Scaled(w: nat, f: Frac, prec: nat): nat
    requires f.left <= prec
  {
    w * Power(10, prec - f.left + f.digit)
  }

  function UnitOf(f: Frac, start: int): nat
    requires f.x >= start
  {
    Power(2, 32 + (f.x - start))
  }

  ghost predicate Close(f: Frac, w: nat, start: int, prec: nat) {
    && f.x >= start && f.left <= prec
    && Near(f.man, Scaled(w, f, prec), UnitOf(f, start), f.x - start + 1)
  }

  lemma ScaledNext(w: nat, n: nat)
    ensures w * Power(10, n + 1) == 10 * (w * Power(10, n))
  {
    TenTimes(w, Power(10, n));
  }

  lemma CloseStep(f: Frac, w: nat, start: int, prec: nat)
    requires Tame(f) && Big(f) && f.left > 0 && f.x < 4 && Close(f, w, start, prec) && start >= -251
    ensures Close(FracStep(f), w, start, prec)
  {
    var n, scaled, unit := f.x - start + 1, Scaled(w, f, prec), UnitOf(f, start);
    assert Power(2, 33 + (f.x - start)) == 2 * unit;
    if f.man > FIFTH || f.digit > 0 {
      NearHalved(f.man, scaled, unit, n);
    } else {
      TameStep(f);
      ScaledNext(w, prec - f.left + f.digit);
      NearFivefold(f.man, f.carry, scaled, unit, n);
    }
  }

  lemma {:induction false} CloseRun(f: Frac, w: nat, start: int, prec: nat)
    requires Tame(f) && Big(f) && Close(f, w, start, prec) && start >= -251
    ensures Close(FracRun(f), w, start, prec) && Big(FracRun(f))
    decreases 4 - f.x
  {
    if f.left > 0 && f.x < 4 {
      TameStep(f);
      BigStep(f);
      CloseStep(f, w, start, prec);
      CloseRun(FracStep(f), w, start, prec);
    }
  }

  lemma CloseStart(bits: nat, prec: nat)
    requires -252 <= Exponent(bits) < -1
    ensures Close(FracStart(bits, prec), Mantissa(bits) * 2048, Exponent(bits) + 1, prec)
    ensures Big(FracStart(bits, prec))
  {
    var f, w := FracStart(bits, prec), Mantissa(bits) * 2048;
    PowerSum(2, 10, 1);
    PowersOfTwo();
    assert Power(2, 10) == 1024;
    assert FractionWord(bits) == w && f.man == w / 0x1_0000_0000;
    assert w * Power(10, 0) == w;
  }

  // ---------- the printed number ----------

  /** Where the zeros fill every place, the last of them was a multiplication. */
  lemma {:induction false} FilledEarly(f: Frac)
    requires Tame(f) && f.left > 0 && FracRun(f).left == 0
    ensures FracRun(f).x <= 0 && FracRun(f).carry == 0
    decreases 4 - f.x
  {
    TameStep(f);
    TameRun(f);
    if FracStep(f).left > 0 {
      FilledEarly(FracStep(f));
    }
  }

  /** A number printed as `n` last places of `place` each stays within half a place and 257 parts of its value. */
  predicate Within(n: nat, place: nat, exact: nat) {
    -(PARTS * place) - 514 * exact <= 2 * PARTS * (n * place - exact) <= PARTS * place + 514 * exact
  }

  lemma Closing(n: nat, place: nat, held: nat, exact: nat)
    requires -(place as int) <= 2 * (n * place - held) <= place
    requires -257 * exact <= PARTS * (exact - held) <= 257 * exact
    ensures Within(n, place, exact)
  {
  }

  lemma HeldNear(man: nat, carry: nat, scaled: nat, unit: nat, n: nat)
    requires Near(man, scaled, unit, n) && man >= 268435455 && n <= 256 && carry <= 1
    ensures -257 * scaled <= PARTS * (scaled - (man + carry) * unit) <= 257 * scaled
  {
    UnitIsPart(man, scaled, unit, n);
    MulMono(scaled, n, 256);
    assert n * scaled == scaled * n;
    assert (man + carry) * unit == man * unit + carry * unit;
    Bit(carry, unit);
  }

  lemma Multiplied(scaled: nat, held: nat, p: nat)
    requires -257 * scaled <= PARTS * (scaled - held) <= 257 * scaled
    ensures -257 * (scaled * p) <= PARTS * (scaled * p - held * p) <= 257 * (scaled * p)
  {
    Between(PARTS * (scaled - held), 257 * scaled, p);
    assert PARTS * (scaled - held) * p == PARTS * (scaled * p - held * p);
    assert 257 * scaled * p == 257 * (scaled * p);
  }

  lemma InPlaces(n: nat, total: nat, unit: nat)
    requires -0x800_0000 <= n * 0x1000_0000 - total <= 0x800_0000
    ensures -(0x1000_0000 * unit) <= 2 * (n * (0x1000_0000 * unit) - total * unit) <= 0x1000_0000 * unit
  {
    Between(n * 0x1000_0000 - total, 0x800_0000, unit);
    assert n * (0x1000_0000 * unit) - total * unit == (n * 0x1000_0000 - total) * unit;
  }

  lemma PlacesWithin(f: Frac, w: nat, start: int, prec: nat, n: nat)
    requires Tame(f) && f.left > 0 && f.x == 4 && Big(f) && Close(f, w, start, prec) && start >= -251
    requires n == PlacesNumber(f) + (if PlacesUp(f) then 1 else 0)
    ensures Within(n, Power(2, 64 - start), w * Power(10, prec))
  {
    var p, scaled, unit := Power(10, f.left - 1), Scaled(w, f, prec), UnitOf(f, start);
    var held := (f.man + f.carry) * unit;
    PowerSum(2, 28, 36 - start);
    TwoTo28();
    HeldNear(f.man, f.carry, scaled, unit, f.x - start + 1);
    Multiplied(scaled, held, p);
    RoundedPlaces(Fixed28(f) * p);
    InPlaces(n, Fixed28(f) * p, unit);
    PowerSum(10, prec - f.left + 1, f.left - 1);
    Associated(w, Power(10, prec - f.left + 1), p);
    Swapped(f.man + f.carry, p, unit);
    Closing(n, Power(2, 64 - start), held * p, w * Power(10, prec));
  }

  lemma TwoTo28()
    ensures Power(2, 28) == 0x1000_0000
  {
    assert Power(2, 7) == 128;
    PowerSum(2, 7, 7);
    PowerSum(2, 14, 14);
  }

  lemma Associated(w: nat, a: nat, b: nat)
    ensures w * (a * b) == w * a * b
  {
  }

  lemma Swapped(a: nat, b: nat, c: nat)
    ensures a * b * c == a * c * b
  {
  }

  /** All places are zeros but perhaps the last, rounded up. */
  lemma FilledWithin(f: Frac, w: nat, start: int, prec: nat, n: nat)
    requires Tame(f) && f.left == 0 && f.x <= 0 && f.carry == 0 && Big(f) && Close(f, w, start, prec) && start >= -251
    requires n == PlacesNumber(f) + (if PlacesUp(f) then 1 else 0)
    ensures Within(n, Power(2, 64 - start), w * Power(10, prec))
  {
    var unit, place := UnitOf(f, start), Power(2, 64 - start);
    HeldNear(f.man, 0, w * Power(10, prec), unit, f.x - start + 1);
    PowersOfTwo();
    PowerSum(2, 32 - f.x, 32 + (f.x - start));
    HalfPlace(f.man, f.x, n, unit, place);
    Closing(n, place, f.man * unit, w * Power(10, prec));
  }

  lemma HalfPlace(man: nat, x: int, n: nat, unit: nat, place: nat)
    requires man < WORD32 && x <= 0 && place == Power(2, 32 - x) * unit
    requires n == if x >= 0 && man >= TOP then 1 else 0
    ensures -(place as int) <= 2 * (n * place - man * unit) <= place
  {
    PowersOfTwo();
    if x == 0 {
      assert n * place - man * unit == (n * 0x1_0000_0000 - man) * unit by {
        assert n == 0 || n == 1;
      }
      Between(n * 0x1_0000_0000 - man, TOP, unit);
    } else {
      TwoGrows(33, 32 - x);
      PowerSum(2, 32, 1);
      MulMono(unit, 0x2_0000_0000, Power(2, 32 - x));
      MulMono(unit, man, WORD32);
      assert unit * man == man * unit && unit * 0x2_0000_0000 == 2 * (unit * WORD32);
    }
  }

  lemma NormalWithin(bits: nat, prec: nat, n: nat)
    requires -252 <= Exponent(bits) < -1 && 0 < prec
    requires var f := FracRun(FracStart(bits, prec)); n == PlacesNumber(f) + (if PlacesUp(f) then 1 else 0)
    ensures Within(n, Power(2, 63 - Exponent(bits)), Mantissa(bits) * 2048 * Power(10, prec))
  {
    CloseStart(bits, prec);
    StartTame(bits, prec);
    RunWithin(FracStart(bits, prec), Mantissa(bits) * 2048, Exponent(bits) + 1, prec, n);
  }

  lemma RunWithin(f: Frac, w: nat, start: int, prec: nat, n: nat)
    requires Tame(f) && f.left > 0 && Big(f) && Close(f, w, start, prec) && start >= -251
    requires var r := FracRun(f); n == PlacesNumber(r) + (if PlacesUp(r) then 1 else 0)
    ensures Within(n, Power(2, 64 - start), w * Power(10, prec))
  {
    TameRun(f);
    CloseRun(f, w, start, prec);
    if FracRun(f).left > 0 {
      PlacesWithin(FracRun(f), w, start, prec, n);
    } else {
      FilledEarly(f);
      FilledWithin(FracRun(f), w, start, prec, n);
    }
  }

  lemma TinyWithin(place: nat, exact: nat)
    requires 2 * exact <= place
    ensures Within(0, place, exact)
  {
  }

  lemma OnlyPlaces(bits: nat, prec: nat)
    requires Exponent(bits) < -1
    ensures var f := FracRun(FracStart(bits, prec));
            Unrounded(bits, prec) + Rounding(bits, prec) == PlacesNumber(f) + (if PlacesUp(f) then 1 else 0)
  {
    NoScaling(bits);
    assert Power(10, prec) * (Power(10, 0) * 0) == 0;
  }

  /** Below 1/2 the printed number is off by at most half its last place and 257 parts in 2^27 of itself:
      a last place is 2^(63 - Exponent) where the double's exact value, times 10 for each place, is
      Mantissa * 2048 * 10^prec. */
  lemma SmallClose(bits: nat, prec: nat)
    requires Exponent(bits) < -1 && 0 < prec <= 62
    ensures Within(Unrounded(bits, prec) + Rounding(bits, prec), Power(2, 63 - Exponent(bits)),
                   Mantissa(bits) * 2048 * Power(10, prec))
  {
    var n := Unrounded(bits, prec) + Rounding(bits, prec);
    if Exponent(bits) <= -253 {
      TinyIsZero(bits, prec);
      TinyExact(bits, prec, n);
    } else {
      OnlyPlaces(bits, prec);
      NormalWithin(bits, prec, n);
    }
  }

  lemma TinyExact(bits: nat, prec: nat, n: nat)
    requires Exponent(bits) <= -253 && prec <= 62 && n == 0
    ensures Within(n, Power(2, 63 - Exponent(bits)), Mantissa(bits) * 2048 * Power(10, prec))
  {
    TinyIsBelowHalf(Mantissa(bits), prec, Exponent(bits));
    TinyWithin(Power(2, 63 - Exponent(bits)), Mantissa(bits) * 2048 * Power(10, prec));
  }
}
