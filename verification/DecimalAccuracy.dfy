/** How far the decimal text is from the double. */
module DecimalAccuracy {
  import opened Words
  import opened Digits
  import opened Doubles
  import opened DecimalFloats

  // ---------- below 2^32: an exact integer part ----------

  /** The integer part of a double below 2^32. */
  function Floor(bits: nat): nat
    requires Exponent(bits) <= 31
  {
    if Exponent(bits) < 0 then 0
    else (PowerPositive(2, 52 - Exponent(bits)); Mantissa(bits) / Power(2, 52 - Exponent(bits)))
  }

  /** The integer part and the 64 bits after the point are all of a double of at least 1/2. */
  lemma FloorAndFraction(bits: nat)
    requires -1 <= Exponent(bits) <= 31
    ensures Mantissa(bits) * Power(2, 12 + Exponent(bits)) == Floor(bits) * WORD + FractionWord(bits)
  {
    if Exponent(bits) < 0 {
      PowerSum(2, 10, 1);
      assert Power(2, 10) == 1024;
    } else {
      SplitAtPoint(Mantissa(bits), Exponent(bits));
    }
  }

  lemma SplitAtPoint(m: nat, e: nat)
    requires e <= 31
    ensures Power(2, 52 - e) > 0
    ensures m * Power(2, 12 + e) == m / Power(2, 52 - e) * WORD + Wrap(m * Power(2, 12 + e))
  {
    PowersOfTwo();
    PowerPositive(2, 52 - e);
    PowerPositive(2, 12 + e);
    PowerSum(2, 52 - e, 12 + e);
    SplitBy(m, Power(2, 52 - e), Power(2, 12 + e));
  }

  lemma SplitBy(m: nat, unit: nat, scale: nat)
    requires unit > 0 && scale > 0 && unit * scale == WORD
    ensures m * scale == m / unit * WORD + Wrap(m * scale)
  {
    var q, r := m / unit, m % unit;
    Division(m, unit);
    ScaledRemainder(unit, scale, q, r);
    WrapMultiple(r * scale, q);
  }

  lemma ScaledRemainder(unit: nat, scale: nat, q: nat, r: nat)
    requires unit * scale == WORD && r < unit && scale > 0
    ensures (unit * q + r) * scale == q * WORD + r * scale && r * scale < WORD
  {
    MulMono(scale, r + 1, unit);
    assert scale * (r + 1) == r * scale + scale;
    assert (unit * q + r) * scale == q * (unit * scale) + r * scale;
  }

  lemma NoScaling(bits: nat)
    requires Exponent(bits) <= 31
    ensures LargeRun(WholeStart(bits)) == Large(Floor(bits), 0, 0, 0)
  {
  }

  lemma StartTame(bits: nat, prec: nat)
    ensures Tame(FracStart(bits, prec))
  {
  }

  lemma PlacesBound(start: nat, n: nat)
    requires start < 10 * ONE && n > 0
    ensures start * Power(10, n - 1) / 0x1000_0000 < Power(10, n)
  {
    var p := Power(10, n - 1);
    PowerPositive(10, n - 1);
    MulMono(p, start + 1, 10 * ONE);
    assert p * (start + 1) == start * p + p;
    assert p * (10 * ONE) == ONE * (10 * p);
  }

  lemma FractionBound(bits: nat, prec: nat)
    ensures FractionNumber(bits, prec) < Power(10, prec)
  {
    var f := FracRun(FracStart(bits, prec));
    StartTame(bits, prec);
    TameRun(FracStart(bits, prec));
    PowerPositive(10, prec);
    if f.left > 0 {
      PlacesBound(Fixed28(f), f.left);
      PowerGrows(f.left, prec);
    }
  }

  lemma PowerGrows(m: nat, n: nat)
    requires m <= n
    ensures Power(10, m) <= Power(10, n)
  {
    PowerSum(10, m, n - m);
    PowerPositive(10, n - m);
    MulMono(Power(10, m), 1, Power(10, n - m));
  }

  /** Below 2^32 the printed integer part is the double's, or one more just when every printed place is a
      nine and is rounded up. */
  lemma IntegerPartExact(bits: nat, prec: nat)
    requires Exponent(bits) <= 31
    ensures var n := Unrounded(bits, prec) + Rounding(bits, prec);
            && FractionNumber(bits, prec) < Power(10, prec) && Rounding(bits, prec) <= 1
            && n == Power(10, prec) * Floor(bits) + FractionNumber(bits, prec) + Rounding(bits, prec)
            && n / Power(10, prec)
               == Floor(bits) + (if FractionNumber(bits, prec) + Rounding(bits, prec) == Power(10, prec) then 1 else 0)
  {
    NoScaling(bits);
    FractionBound(bits, prec);
    PowerPositive(10, prec);
    var p, low := Power(10, prec), FractionNumber(bits, prec) + Rounding(bits, prec);
    assert Power(10, 0) * Floor(bits) == Floor(bits);
    assert Unrounded(bits, prec) == FractionNumber(bits, prec) + p * Floor(bits);
    CarriedQuotient(p, Floor(bits), low);
  }

  lemma CarriedQuotient(p: nat, floor: nat, low: nat)
    requires 0 < p && low <= p
    ensures (p * floor + low) / p == floor + (if low == p then 1 else 0)
  {
    if low == p {
      assert p * (floor + 1) == p * floor + p;
      QuotientIs(p, floor + 1, 0);
    } else {
      QuotientIs(p, floor, low);
    }
  }

  lemma QuotientIs(p: nat, q: nat, r: nat)
    requires r < p
    ensures (p * q + r) / p == q
  {
    var n := p * q + r;
    var k := n / p;
    Division(n, p);
    assert p * (q + 1) == p * q + p;
    assert p * (k + 1) == p * k + p;
    MulMono(p, q + 1, k);
    MulMono(p, k + 1, q);
  }

  lemma DigitsBelow(v: nat, n: nat)
    requires v < Power(10, n) && n > 0
    ensures DigitCount(v) <= n
    decreases n
  {
    if v >= 10 {
      assert n > 1 by {
        assert Power(10, 1) == 10 * Power(10, 0);
      }
      DigitsBelow(v / 10, n - 1);
    }
  }

  /** Below 2^32 the conversion never fails for want of room with at most 52 places. */
  lemma AlwaysFits(bits: nat, prec: nat, alt: bool)
    requires Exponent(bits) <= 31 && prec <= 52
    ensures prec + |Mark(prec, alt)| + Zeros(bits) + WholeCount(bits) < SIZE
  {
    NoScaling(bits);
    PowerSum(10, 5, 5);
    DigitsBelow(LargeRun(WholeStart(bits)).man, 10);
  }

  /** The text's parts: the digits before the point denote the integer part, those after it the rest. */
  lemma PrintedParts(whole: string, fraction: string, bits: nat, prec: nat)
    requires Exponent(bits) <= 31 && AllDigits(fraction, 10) && |fraction| == prec
    requires Value(whole + fraction, 10) == Unrounded(bits, prec) + Rounding(bits, prec)
    ensures var carried := FractionNumber(bits, prec) + Rounding(bits, prec) == Power(10, prec);
            && Value(whole, 10) == Floor(bits) + (if carried then 1 else 0)
            && Value(fraction, 10) == if carried then 0 else FractionNumber(bits, prec) + Rounding(bits, prec)
  {
    IntegerPartExact(bits, prec);
    PrintedSum(whole, fraction, Power(10, prec), Floor(bits), FractionNumber(bits, prec) + Rounding(bits, prec));
  }

  lemma PrintedSum(whole: string, fraction: string, p: nat, floor: nat, low: nat)
    requires AllDigits(fraction, 10) && p == Power(10, |fraction|) && low <= p
    requires Value(whole + fraction, 10) == p * floor + low
    ensures Value(whole, 10) == floor + (if low == p then 1 else 0) && Value(fraction, 10) == if low == p then 0 else low
  {
    ValueJoin(whole, fraction, 10);
    ValueBound(fraction, 10);
    SplitOnce(p, Value(whole, 10), Value(fraction, 10), floor, low);
  }

  lemma SplitOnce(p: nat, w: nat, f: nat, floor: nat, low: nat)
    requires f < p && low <= p && w * p + f == p * floor + low
    ensures w == floor + (if low == p then 1 else 0) && f == if low == p then 0 else low
  {
    assert w * p == p * w;
    QuotientIs(p, w, f);
    CarriedQuotient(p, floor, low);
    assert p * (floor + 1) == p * floor + p;
  }

  // ---------- no places: when rounding to an integer is right ----------

  const HALF: nat := 0x8000_0000_0000_0000  // 2^63, one half in FractionWord's units

  /** The double is at least half-way to the next integer. */
  predicate HalfOrMore(bits: nat) {
    Exponent(bits) >= -1 && FractionWord(bits) >= HALF
  }

  /** With no places the rounding bit is itself rounded, and may wrap to zero. */
  lemma IntegerRoundsExactlyWhen(bits: nat)
    requires Exponent(bits) <= 31
    ensures RoundsUp(bits, 0) <==> Exponent(bits) >= -1 && HALF - TOP <= FractionWord(bits) < WORD - TOP
    ensures (RoundsUp(bits, 0) <==> HalfOrMore(bits))
            <==> !(Exponent(bits) >= -1
                   && (HALF - TOP <= FractionWord(bits) < HALF || WORD - TOP <= FractionWord(bits)))
  {
    var w := FractionWord(bits);
    var high, bit := w / 0x1_0000_0000, w / 0x8000_0000 % 2;
    assert w / 0x8000_0000 == 2 * high + bit;
  }

  /** 0.99999999999999989 prints as 0 without places, 1.4999999999999998 as 2. */
  lemma IntegerRoundsWrongly()
    ensures var almostOne, underHalf := 0x3FEF_FFFF_FFFF_FFFF, 0x3FF7_FFFF_FFFF_FFFF;
            && HalfOrMore(almostOne) && Unrounded(almostOne, 0) + Rounding(almostOne, 0) == 0
            && !HalfOrMore(underHalf) && Unrounded(underHalf, 0) + Rounding(underHalf, 0) == 2
  {
    AlmostOne(0x3FEF_FFFF_FFFF_FFFF);
    UnderHalf(0x3FF7_FFFF_FFFF_FFFF);
  }

  lemma AlmostOne(bits: nat)
    requires bits == 0x3FEF_FFFF_FFFF_FFFF
    ensures HalfOrMore(bits) && Unrounded(bits, 0) + Rounding(bits, 0) == 0
  {
    PowersOfTwo();
    PowerSum(2, 10, 1);
    PowerSum(2, 10, 2);
    assert Exponent(bits) == -1 && Mantissa(bits) == 0x1F_FFFF_FFFF_FFFF;
    assert FractionWord(bits) == 0xFFFF_FFFF_FFFF_F800;
    IntegerRoundsExactlyWhen(bits);
    IntegerPartExact(bits, 0);
  }

  lemma UnderHalf(bits: nat)
    requires bits == 0x3FF7_FFFF_FFFF_FFFF
    ensures !HalfOrMore(bits) && Unrounded(bits, 0) + Rounding(bits, 0) == 2
  {
    PowersOfTwo();
    PowerSum(2, 10, 1);
    PowerSum(2, 10, 2);
    assert Exponent(bits) == 0 && Mantissa(bits) == 0x17_FFFF_FFFF_FFFF;
    assert FractionWord(bits) == 0x7FFF_FFFF_FFFF_F000;
    IntegerRoundsExactlyWhen(bits);
    IntegerPartExact(bits, 0);
  }

  // ---------- from 1/2 on: the places ----------

  /** The fraction word `w` against what the scaling holds, in units `u` of `man`: before the one
      multiplication `carry` is its rounding bit, after it the error is between -1/2 and 5/2. */
  ghost predicate Tracks(f: Frac, w: nat, u: nat) {
    && u > 0
    && (f.digit == 0 ==> f.carry * u <= 2 * (w - f.man * u) < u + f.carry * u)
    && (f.digit == 1 ==> 0 <= 2 * (10 * w - f.man * u) + u < 6 * u)
    && (f.digit == 1 && f.carry == 1 ==> u <= 4 * (10 * w - f.man * u))
  }

  lemma Halved(man: nat, u: nat)
    ensures man * u == man / 2 * (2 * u) + man % 2 * u
  {
    assert man == 2 * (man / 2) + man % 2;
    HalvedParts(man / 2, man % 2, u);
  }

  lemma HalvedParts(h: nat, c: nat, u: nat)
    ensures (2 * h + c) * u == h * (2 * u) + c * u
  {
  }

  lemma FiveTimes(man: nat, c: nat, u: nat)
    ensures (man * 5 + 3 * c) * (2 * u) == 10 * (man * u) + 6 * (c * u)
  {
  }

  lemma TracksHalving(f: Frac, w: nat, u: nat)
    requires Tame(f) && Tracks(f, w, u)
    ensures Tracks(Frac(f.man / 2, f.man % 2, f.x + 1, f.digit, f.left), w, 2 * u)
  {
    Halved(f.man, u);
    Bit(f.carry, u);
    Bit(f.man % 2, u);
    Bit(f.man % 2, 2 * u);
  }

  /** A bit times a unit. */
  lemma Bit(c: nat, u: nat)
    requires c <= 1
    ensures c * u == if c == 0 then 0 else u
  {
  }

  lemma TracksFivefold(f: Frac, w: nat, u: nat)
    requires Tame(f) && f.digit == 0 && Tracks(f, w, u)
    ensures Tracks(Frac(f.man * 5 + 3 * f.carry, 0, f.x + 1, 1, f.left), w, 2 * u)
  {
    FiveTimes(f.man, f.carry, u);
    Bit(f.carry, u);
  }

  lemma TracksStep(f: Frac, w: nat, u: nat)
    requires Tame(f) && 0 <= f.x < 4 && f.left > 0 && Tracks(f, w, u)
    ensures Tracks(FracStep(f), w, 2 * u)
  {
    TameStep(f);
    if f.man > FIFTH || f.digit > 0 {
      TracksHalving(f, w, u);
    } else {
      TracksFivefold(f, w, u);
    }
  }

  lemma Doubled(u: nat, p: nat)
    ensures 2 * u * p == u * (2 * p)
  {
  }

  lemma {:induction false} TracksRun(f: Frac, w: nat, u: nat)
    requires Tame(f) && 0 <= f.x <= 4 && f.left > 0 && Tracks(f, w, u)
    ensures var r := FracRun(f); Tracks(r, w, u * Power(2, 4 - f.x)) && r.left == f.left && r.x == 4 && Tame(r)
    decreases 4 - f.x
  {
    TameRun(f);
    if f.x < 4 {
      TameStep(f);
      TracksStep(f, w, u);
      TracksRun(FracStep(f), w, 2 * u);
      Doubled(u, Power(2, 3 - f.x));
    } else {
      assert u * Power(2, 0) == u;
    }
  }

  /** The 4.28 number the places are taken from is ten times the fraction, off by less than 5/2 units. */
  lemma StartClose(bits: nat, prec: nat)
    requires -1 <= Exponent(bits) <= 31 && prec > 0
    ensures var f := FracRun(FracStart(bits, prec));
            && f.left == prec && f.x == 4 && Fixed28(f) < 10 * ONE
            && -3 * 0x10_0000_0000 <= 4 * (10 * FractionWord(bits) - Fixed28(f) * 0x10_0000_0000)
            && 2 * (10 * FractionWord(bits) - Fixed28(f) * 0x10_0000_0000) < 5 * 0x10_0000_0000
  {
    var f, w := FracStart(bits, prec), FractionWord(bits);
    StartTame(bits, prec);
    StartTracks(f, w);
    TracksRun(f, w, 0x1_0000_0000);
    assert Power(2, 4) == 16;
  }

  lemma StartTracks(f: Frac, w: nat)
    requires f.man == w / 0x1_0000_0000 && f.carry == w / 0x8000_0000 % 2 && f.digit == 0
    ensures Tracks(f, w, 0x1_0000_0000)
  {
    assert w / 0x8000_0000 == 2 * f.man + f.carry;
  }

  /** Where places are left after the scaling they are the fixed-point number, half a last place rounded up. */
  lemma PlacesRoundHalfUp(f: Frac)
    requires f.x == 4 && f.left > 0
    ensures PlacesNumber(f) + (if PlacesUp(f) then 1 else 0)
         == (Fixed28(f) * Power(10, f.left - 1) + 0x800_0000) / 0x1000_0000
  {
    HalfUp(Fixed28(f) * Power(10, f.left - 1));
  }

  lemma HalfUp(total: nat)
    ensures total / 0x1000_0000 + (if total % 0x1000_0000 >= 0x800_0000 then 1 else 0)
         == (total + 0x800_0000) / 0x1000_0000
  {
  }

  lemma RoundedPlaces(total: nat)
    ensures var n := total / 0x1000_0000 + (if total % 0x1000_0000 >= ONE / 2 then 1 else 0);
            -0x800_0000 <= n * 0x1000_0000 - total <= 0x800_0000
  {
  }

  /** From 1/2 up to 2^32 the printed number is off by at most half a unit of its last place and 5/2 units
      of 2^-28 in its first: the double's exact value is Mantissa * 2^(12 + Exponent) / 2^64. */
  lemma DecimalClose(bits: nat, prec: nat)
    requires -1 <= Exponent(bits) <= 31 && prec > 0
    ensures var n := Unrounded(bits, prec) + Rounding(bits, prec);
            var exact := Mantissa(bits) * Power(2, 12 + Exponent(bits));
            -0x1_0000_0000_0000_0000 - 5 * 0x10_0000_0000 * Power(10, prec - 1)
            <= 2 * (n * 0x1_0000_0000_0000_0000 - exact * Power(10, prec))
            <= 0x1_0000_0000_0000_0000 + 5 * 0x10_0000_0000 * Power(10, prec - 1)
  {
    FloorAndFraction(bits);
    IntegerPartExact(bits, prec);
    PlacesClose(bits, prec, FractionNumber(bits, prec) + Rounding(bits, prec));
    assert Power(10, prec) == 10 * Power(10, prec - 1);
    Distributed(Floor(bits), FractionWord(bits), Power(10, prec - 1),
                FractionNumber(bits, prec) + Rounding(bits, prec));
  }

  /** The same for the places alone. */
  lemma PlacesClose(bits: nat, prec: nat, places: nat)
    requires -1 <= Exponent(bits) <= 31 && prec > 0
    requires places == FractionNumber(bits, prec) + Rounding(bits, prec)
    ensures var p, w := Power(10, prec - 1), FractionWord(bits);
            -0x1_0000_0000_0000_0000 - 5 * 0x10_0000_0000 * p <= 2 * (places * 0x1_0000_0000_0000_0000 - w * (10 * p))
            <= 0x1_0000_0000_0000_0000 + 5 * 0x10_0000_0000 * p
  {
    StartClose(bits, prec);
    var f, p := FracRun(FracStart(bits, prec)), Power(10, prec - 1);
    PlacesError(Fixed28(f), FractionWord(bits), p, Fixed28(f) * p, places);
  }

  lemma PlacesError(start: nat, w: nat, p: nat, total: nat, places: nat)
    requires -3 * 0x10_0000_0000 <= 4 * (10 * w - start * 0x10_0000_0000)
    requires 2 * (10 * w - start * 0x10_0000_0000) < 5 * 0x10_0000_0000
    requires total == start * p
    requires places == total / 0x1000_0000 + (if total % 0x1000_0000 >= ONE / 2 then 1 else 0)
    ensures -0x1_0000_0000_0000_0000 - 5 * 0x10_0000_0000 * p <= 2 * (places * 0x1_0000_0000_0000_0000 - w * (10 * p))
         <= 0x1_0000_0000_0000_0000 + 5 * 0x10_0000_0000 * p
  {
    RoundedPlaces(total);
    ErrorScaled(start, w, p);
    Added(places, total, w * (10 * p), 5 * 0x10_0000_0000 * p);
  }

  lemma Added(places: nat, total: nat, exact: nat, bound: int)
    requires -0x800_0000 <= places * 0x1000_0000 - total <= 0x800_0000
    requires -bound <= 2 * (exact - total * 0x10_0000_0000) <= bound
    ensures -0x1_0000_0000_0000_0000 - bound <= 2 * (places * 0x1_0000_0000_0000_0000 - exact)
         <= 0x1_0000_0000_0000_0000 + bound
  {
  }

  lemma ErrorScaled(start: nat, w: nat, p: nat)
    requires -3 * 0x10_0000_0000 <= 4 * (10 * w - start * 0x10_0000_0000)
    requires 2 * (10 * w - start * 0x10_0000_0000) < 5 * 0x10_0000_0000
    ensures -5 * 0x10_0000_0000 * p <= 2 * (w * (10 * p) - start * p * 0x10_0000_0000) <= 5 * 0x10_0000_0000 * p
  {
    var d := 10 * w - start * 0x10_0000_0000;
    assert w * (10 * p) - start * p * 0x10_0000_0000 == d * p;
    assert 2 * d <= 5 * 0x10_0000_0000 && -5 * 0x10_0000_0000 <= 2 * d;
    Between(2 * d, 5 * 0x10_0000_0000, p);
  }

  lemma Between(d: int, bound: int, p: nat)
    requires -bound <= d <= bound
    ensures -bound * p <= d * p <= bound * p
  {
  }

  lemma Distributed(floor: nat, w: nat, p: nat, places: nat)
    ensures (10 * p * floor + places) * 0x1_0000_0000_0000_0000 - (floor * WORD + w) * (10 * p)
         == places * 0x1_0000_0000_0000_0000 - w * (10 * p)
  {
  }

  // ---------- from 2^32 on: 32 significant bits ----------

  /** The size of `man`'s unit, in units of 2^-21. */
  function Unit(left: nat, zeros: nat): nat {
    0x20_0000 * (Power(2, left) * Power(10, zeros))
  }

  lemma UnitHalves(left: nat, zeros: nat)
    requires left > 0
    ensures Unit(left, zeros) == 2 * Unit(left - 1, zeros) && Unit(left - 1, zeros + 1) == 5 * Unit(left, zeros)
  {
    var a, b := Power(2, left - 1), Power(10, zeros);
    assert 2 * a * b == 2 * (a * b);
    assert a * (10 * b) == 10 * (a * b);
  }

  /** Each turn doubles the word with its carry, or takes a fifth of them, rounded to the nearest. */
  lemma LargeStepRounds(s: Large)
    requires s.left > 0 && s.carry <= 1
    ensures var t := LargeStep(s);
            if s.man < 0x8000_0000 then t.man + t.carry == 2 * s.man + s.carry && t.zeros == s.zeros
            else -2 <= 5 * (t.man + t.carry) - (s.man + s.carry) <= 2 && t.zeros == s.zeros + 1
  {
    assert s.man == 5 * (s.man / 5) + s.man % 5;
  }

  /** `man` is not above the value `v`, nor is its rounding; each zero has cost at most 4 parts in 2^31. */
  ghost predicate Holds(man: nat, carry: nat, zeros: nat, unit: nat, v: nat) {
    && (2 * man + carry) * unit <= 2 * v
    && 0x8000_0000 * (v - man * unit) <= (4 * zeros + 1) * v
  }

  lemma DoubleHolds(man: nat, carry: nat, zeros: nat, half: nat, v: nat)
    requires carry <= 1 && Holds(man, carry, zeros, 2 * half, v)
    ensures Holds(2 * man + carry, 0, zeros, half, v)
  {
    assert (2 * man + carry) * (2 * half) == 2 * ((2 * man + carry) * half);
    assert man * (2 * half) <= (2 * man + carry) * half;
    assert (2 * (2 * man + carry) + 0) * half == 2 * ((2 * man + carry) * half);
  }

  lemma FifthHolds(man: nat, carry: nat, zeros: nat, unit: nat, v: nat)
    requires carry <= 1 && man >= TOP && Holds(man, carry, zeros, unit, v)
    ensures Holds(man / 5, if man % 5 + carry > 2 then 1 else 0, zeros + 1, 5 * unit, v)
  {
    FifthCarry(man / 5, man % 5, carry, unit, v);
    UnitSmall(man, carry, unit, v);
    FifthLoss(man / 5, man % 5, unit);
    assert (4 * (zeros + 1) + 1) * v == (4 * zeros + 1) * v + 4 * v;
  }

  lemma UnitSmall(man: nat, carry: nat, unit: nat, v: nat)
    requires man >= TOP && (2 * man + carry) * unit <= 2 * v
    ensures 0x8000_0000 * unit <= v
  {
    MulMono(unit, 0x1_0000_0000, 2 * man + carry);
    assert (2 * man + carry) * unit == unit * (2 * man + carry);
  }

  lemma FifthLoss(q: nat, r: nat, unit: nat)
    requires r < 5
    ensures q * (5 * unit) >= (5 * q + r) * unit - 4 * unit
  {
    assert (5 * q + r) * unit == q * (5 * unit) + r * unit;
    MulMono(unit, r, 4);
  }

  lemma FifthCarry(q: nat, r: nat, carry: nat, unit: nat, v: nat)
    requires r < 5 && carry <= 1 && (2 * (5 * q + r) + carry) * unit <= 2 * v
    ensures (2 * q + (if r + carry > 2 then 1 else 0)) * (5 * unit) <= 2 * v
  {
    var up := if r + carry > 2 then 1 else 0;
    assert 5 * (2 * q + up) <= 2 * (5 * q + r) + carry;
    assert (2 * q + up) * (5 * unit) == 5 * (2 * q + up) * unit;
    MulMono(unit, 5 * (2 * q + up), 2 * (5 * q + r) + carry);
  }

  lemma {:induction false} HoldsRun(s: Large, v: nat)
    requires s.carry <= 1 && Holds(s.man, s.carry, s.zeros, Unit(s.left, s.zeros), v)
    ensures var r := LargeRun(s); Holds(r.man, r.carry, r.zeros, Unit(0, r.zeros), v)
    decreases s.left
  {
    if s.left > 0 {
      UnitHalves(s.left, s.zeros);
      if s.man < TOP {
        DoubleHolds(s.man, s.carry, s.zeros, Unit(s.left - 1, s.zeros), v);
      } else {
        FifthHolds(s.man, s.carry, s.zeros, Unit(s.left, s.zeros), v);
      }
      HoldsRun(LargeStep(s), v);
    }
  }

  lemma HoldsStart(m: nat, p: nat)
    requires HIDDEN <= m
    ensures Holds(m / 0x20_0000, m / 0x10_0000 % 2, 0, 0x20_0000 * p, m * p)
  {
    var man, carry := m / 0x20_0000, m / 0x10_0000 % 2;
    assert (2 * man + carry) * 0x20_0000 <= 2 * m;
    assert (2 * man + carry) * (0x20_0000 * p) == (2 * man + carry) * 0x20_0000 * p;
    MulMono(p, (2 * man + carry) * 0x20_0000, 2 * m);
    var d := m - man * 0x20_0000;
    assert m * p - man * (0x20_0000 * p) == d * p;
    assert 0x8000_0000 * d <= m;
    MulMono(p, 0x8000_0000 * d, m);
  }

  /** From 2^32 on the printed number, its places all zero, is at most half of its last computed digit's unit
      above the double, and below it by at most 4 parts in 2^31 for each zero printed and one more; the
      double's exact value is Mantissa * 2^(Exponent - 31) / 2^21. */
  lemma LargeClose(bits: nat, prec: nat)
    requires Exponent(bits) > 31
    ensures var r := LargeRun(WholeStart(bits));
            var n, v := (r.man + r.carry) * Power(10, r.zeros), Mantissa(bits) * Power(2, Exponent(bits) - 31);
            && Unrounded(bits, prec) + Rounding(bits, prec) == Power(10, prec) * n
            && 2 * (0x20_0000 * n - v) <= 0x20_0000 * Power(10, r.zeros)
            && 0x8000_0000 * (v - 0x20_0000 * n) <= (4 * r.zeros + 1) * v
  {
    var s, m := WholeStart(bits), Mantissa(bits);
    var p, v := Power(2, s.left), m * Power(2, Exponent(bits) - 31);
    HoldsStart(m, p);
    assert Power(10, 0) == 1 && Unit(s.left, 0) == 0x20_0000 * p;
    HoldsRun(s, v);
    var r := LargeRun(s);
    var z := Power(10, r.zeros);
    assert Power(2, 0) == 1 && Unit(0, r.zeros) == 0x20_0000 * z;
    PowerSum(10, prec, r.zeros);
    Printed(r.man, r.carry, z, Power(10, prec));
    Conclude(r.man, r.carry, z, v, r.zeros);
  }

  lemma Printed(man: nat, carry: nat, z: nat, p: nat)
    requires carry <= 1
    ensures p * (z * man) + (if carry == 0 then 0 else p * z) == p * ((man + carry) * z)
  {
    assert (man + carry) * z == z * man + carry * z;
    assert p * (z * man + carry * z) == p * (z * man) + p * (carry * z);
  }

  lemma Conclude(man: nat, carry: nat, z: nat, v: nat, zeros: nat)
    requires carry <= 1 && Holds(man, carry, zeros, 0x20_0000 * z, v)
    ensures 2 * (0x20_0000 * ((man + carry) * z) - v) <= 0x20_0000 * z
    ensures 0x8000_0000 * (v - 0x20_0000 * ((man + carry) * z)) <= (4 * zeros + 1) * v
  {
    var a := man * z;
    assert (man + carry) * z == a + carry * z;
    assert (2 * man + carry) * (0x20_0000 * z) == 0x20_0000 * (2 * a + carry * z);
    assert man * (0x20_0000 * z) == 0x20_0000 * a;
    assert 0 <= carry * z <= z;
  }
}
