/** `npf_ftoa_rev`: a double in decimal with 32-bit arithmetic and a 64-byte buffer. */
module DecimalFloats {
  import opened Words
  import opened Digits
  import opened Doubles
  import opened Decimals

  const SIZE: nat := 64
  const WORD32: nat := 0x1_0000_0000
  const TOP: nat := 0x8000_0000       // 2^31
  const ONE: nat := 0x1000_0000       // 1 in 4.28 fixed point
  const FIFTH: nat := 858993458       // (2^32 - 4) / 5

  /** Reduction to 32 bits. */
  function Word32(x: nat): (r: nat)
    ensures r < WORD32 && (x < WORD32 ==> r == x)
  {
    x % 0x1_0000_0000
  }

  // ---------- the integer part ----------

  /** man * 2^left * 10^zeros is (nearly) what is left to print; `carry` rounds `man`. */
  datatype Large = Large(man: nat, carry: nat, left: nat, zeros: nat)

  function LargeStep(s: Large): Large
    requires s.left > 0
  {
    if s.man < TOP then Large(2 * s.man + s.carry, 0, s.left - 1, s.zeros)
    else Large(s.man / 5, if s.man % 5 + s.carry > 2 then 1 else 0, s.left - 1, s.zeros + 1)
  }

  function LargeRun(s: Large): (r: Large)
    ensures r.zeros >= s.zeros && r.left == 0
    ensures s.man < WORD32 && s.carry <= 1 ==> r.man < WORD32 && r.carry <= 1
    decreases s.left
  {
    if s.left == 0 then s else LargeRun(LargeStep(s))
  }

  function WholeStart(bits: nat): (s: Large)
    ensures s.man < WORD32 && s.carry <= 1 && s.zeros == 0
  {
    var m, e := Mantissa(bits), Exponent(bits);
    if e > 31 then Large(m / 0x20_0000, m / 0x10_0000 % 2, e - 31, 0)
    else if e >= 0 then (WholeFits(m, e); Large(m / Power(2, 52 - e), 0, 0, 0))
    else Large(0, 0, 0, 0)
  }

  lemma PowersOfTwo()
    ensures Power(2, 21) == 0x20_0000 && Power(2, 31) == TOP && Power(2, 32) == WORD32 && Power(2, 64) == WORD
    ensures Power(2, 52) == HIDDEN && Power(2, 53) == 2 * HIDDEN
  {
    assert Power(2, 5) == 32;
    PowerSum(2, 5, 5);
    PowerSum(2, 10, 10);
    PowerSum(2, 20, 11);
    PowerSum(2, 20, 1);
    PowerSum(2, 31, 1);
    PowerSum(2, 32, 20);
    PowerSum(2, 52, 1);
    PowerSum(2, 32, 32);
  }

  lemma WholeFits(m: nat, e: nat)
    requires m < 2 * HIDDEN && e <= 31
    ensures Power(2, 52 - e) > 0 && m / Power(2, 52 - e) < WORD32
  {
    PowersOfTwo();
    PowerPositive(2, 52 - e);
    PowerSum(2, e + 1, 52 - e);
    PowerPositive(2, 31 - e);
    PowerSum(2, e + 1, 31 - e);
    MulMono(Power(2, e + 1), 1, Power(2, 31 - e));
    assert Power(2, e + 1) * Power(2, 52 - e) == Power(2, 52 - e) * Power(2, e + 1);
    QuotientBelow(m, Power(2, 52 - e), Power(2, e + 1));
  }

  /** The scaling of `s` ends in `r`; looked into by the lemmas below alone. */
  ghost predicate Scaling(s: Large, r: Large) {
    forall k {:trigger Open(k)} :: Open(k) ==> r == LargeRun(s)
  }

  lemma ScalingBegins(s: Large, r: Large)
    requires r == LargeRun(s)
    ensures Scaling(s, r)
  {
  }

  lemma ScalingEnds(s: Large, r: Large)
    requires Scaling(s, r) && s.left == 0
    ensures r == s
  {
    assert Open(0);
  }

  /** One turn's arithmetic. */
  method ScaleTurn(man: nat, carry: nat, ghost left: nat, ghost zeros: nat, ghost r: Large)
    returns (next: nat, up: nat)
    requires man < WORD32 && carry <= 1 && left > 0 && Scaling(Large(man, carry, left, zeros), r)
    ensures next < WORD32 && up <= 1
    ensures Scaling(Large(next, up, left - 1, if man < TOP then zeros else zeros + 1), r)
  {
    assert Open(0);
    if man < TOP {
      next, up := Word32(2 * man) + carry, 0;
    } else {
      next, up := man / 5, if man % 5 + carry > 2 then 1 else 0;
    }
  }

  lemma ScalingFull(man: nat, carry: nat, left: nat, zeros: nat, r: Large)
    requires man >= TOP && left > 0 && Scaling(Large(man, carry, left, zeros), r)
    ensures r.zeros > zeros
  {
    assert Open(0);
  }

  /** The zeros of a large number and the 32 bits above them. */
  method ScaleInteger(buffer: array<char>, start: Large, first: nat)
    returns (ok: bool, man: nat, carry: nat, dec: nat)
    requires buffer.Length >= SIZE && first <= SIZE && start.man < WORD32 && start.carry <= 1 && start.zeros == 0
    modifies buffer
    ensures var r := LargeRun(start);
            && (ok <==> first + r.zeros <= SIZE)
            && (ok ==> man == r.man && carry == r.carry && dec == first + r.zeros)
    ensures forall k :: 0 <= k < first ==> buffer[k] == old(buffer[k])
    ensures ok ==> forall k :: first <= k < dec ==> buffer[k] == '0'
  {
    ghost var r := LargeRun(start);
    ScalingBegins(start, r);
    ok, man, carry, dec := ScaleLoop(buffer, start, first, r);
  }

  /** The loop of the scaling. */
  method ScaleLoop(buffer: array<char>, start: Large, first: nat, ghost r: Large)
    returns (ok: bool, man: nat, carry: nat, dec: nat)
    requires buffer.Length >= SIZE && first <= SIZE && start.man < WORD32 && start.carry <= 1 && start.zeros == 0
    requires Scaling(start, r)
    modifies buffer
    ensures ok <==> first + r.zeros <= SIZE
    ensures ok ==> man == r.man && carry == r.carry && dec == first + r.zeros
    ensures forall k :: 0 <= k < first ==> buffer[k] == old(buffer[k])
    ensures ok ==> forall k :: first <= k < dec ==> buffer[k] == '0'
  {
    man, carry, dec := start.man, start.carry, first;
    var exp := start.left;
    ok := true;
    while exp > 0
      invariant first <= dec <= SIZE && man < WORD32 && carry <= 1
      invariant Scaling(Large(man, carry, exp, dec - first), r)
      invariant forall k :: 0 <= k < first ==> buffer[k] == old(buffer[k])
      invariant forall k :: first <= k < dec ==> buffer[k] == '0'
    {
      ghost var zeros := dec - first;
      if man >= TOP {
        if dec >= SIZE {
          ScalingFull(man, carry, exp, zeros, r);
          ok := false;
          return;
        }
        buffer[dec] := '0';
        dec := dec + 1;
      }
      man, carry := ScaleTurn(man, carry, exp, zeros, r);
      exp := exp - 1;
    }
    ScalingEnds(Large(man, carry, exp, dec - first), r);
  }

  /** The digits of `man`, last one first, from `dec` on. */
  method PutWhole(buffer: array<char>, word: nat, dec: nat) returns (ok: bool, end: nat)
    requires buffer.Length >= SIZE && dec <= SIZE
    modifies buffer
    ensures ok <==> dec + |Numeral(word, 10, true)| <= SIZE
    ensures ok ==> end == dec + |Numeral(word, 10, true)| && buffer[dec..end] == Reversed(Numeral(word, 10, true))
    ensures forall k :: 0 <= k < dec ==> buffer[k] == old(buffer[k])
  {
    ghost var numeral := Numeral(word, 10, true);
    var man := word;
    end := dec;
    ok := true;
    while true
      invariant dec <= end <= SIZE && (end > dec ==> man > 0)
      invariant numeral == Left(man, end == dec, 10, true) + Reversed(buffer[dec..end])
      invariant forall k :: 0 <= k < dec ==> buffer[k] == old(buffer[k])
      decreases man
    {
      ghost var before := buffer[dec..end];
      ghost var q, d := NextDigit(man, end == dec, 10, true, before);
      if end >= SIZE {
        ok := false;
        return;
      }
      buffer[end] := '0' + (man % 10) as char;
      assert buffer[dec..end + 1] == before + [Glyph(d, true)];
      end := end + 1;
      man := man / 10;
      if man == 0 {
        break;
      }
    }
    ReversedTwice(buffer[dec..end]);
    assert numeral == Reversed(buffer[dec..end]);
  }

  function DigitCount(v: nat): (n: nat)
    ensures n > 0
  {
    if v < 10 then 1 else 1 + DigitCount(v / 10)
  }

  /** `text` writes `v` in decimal, without leading zeros. */
  ghost predicate Denotes(text: string, v: nat) {
    && AllDigits(text, 10) && Value(text, 10) == v && |text| == DigitCount(v)
    && (text[0] == '0' <==> v == 0)
  }

  lemma {:induction false} NumeralCount(v: nat)
    ensures |Numeral(v, 10, true)| == DigitCount(v)
  {
    if v >= 10 {
      NumeralCount(v / 10);
    }
  }

  lemma NumeralDenotes(v: nat, text: string)
    requires text == Numeral(v, 10, true)
    ensures Denotes(text, v)
  {
    NumeralCount(v);
    NumeralValue(v, 10, true);
    NumeralLead(v, 10, true);
  }

  /** `PutWhole`, by what the digits denote. */
  method PutNumber(buffer: array<char>, word: nat, dec: nat) returns (ok: bool, end: nat, ghost numeral: string)
    requires buffer.Length >= SIZE && dec <= SIZE
    modifies buffer
    ensures ok <==> dec + DigitCount(word) <= SIZE
    ensures ok ==> end == dec + DigitCount(word) && buffer[dec..end] == Reversed(numeral)
    ensures Denotes(numeral, word)
    ensures forall k :: 0 <= k < dec ==> buffer[k] == old(buffer[k])
  {
    NumeralCount(word);
    ok, end := PutWhole(buffer, word, dec);
    numeral := Numeral(word, 10, true);
    NumeralDenotes(word, numeral);
  }

  // ---------- the fraction ----------

  /** man * 2^x (in units of 2^-32) is what is left to print, ten times that once `digit` is 1; `left` counts
      the places still to be filled. */
  datatype Frac = Frac(man: nat, carry: nat, x: int, digit: nat, left: nat)

  function FracStep(f: Frac): Frac
    requires f.left > 0
  {
    if f.man > FIFTH || f.digit > 0 then Frac(f.man / 2, f.man % 2, f.x + 1, f.digit, f.left)
    else
      var man := Word32(f.man * 5);
      Frac(if f.carry > 0 then Word32(man + 3) else man, 0, f.x + 1, if f.x < 0 then f.digit else f.digit + 1,
           if f.x < 0 then f.left - 1 else f.left)
  }

  function FracRun(f: Frac): (r: Frac)
    ensures r.left <= f.left
    decreases 4 - f.x
  {
    if f.left > 0 && f.x < 4 then FracRun(FracStep(f)) else f
  }

  /** The bits below the point: |f| is floor(|f|) + FractionWord * 2^Low / 2^64. */
  function FractionWord(bits: nat): (w: nat)
    ensures w < WORD
  {
    var shift := if Exponent(bits) < 0 then -1 else Exponent(bits);
    Wrap(Mantissa(bits) * Power(2, 12 + shift))
  }

  function FracStart(bits: nat, prec: nat): (f: Frac)
    ensures f.man < WORD32 && f.carry <= 1
  {
    var w := FractionWord(bits);
    Frac(w / 0x1_0000_0000, w / 0x8000_0000 % 2, if Exponent(bits) < 0 then Exponent(bits) + 1 else 0, 0, prec)
  }

  /** What the loop keeps; it makes every digit a digit. */
  predicate Tame(f: Frac) {
    && f.man < WORD32 && f.carry <= 1 && f.digit <= 1 && f.x <= 4
    && (f.x <= 0 ==> f.digit == 0)
    && (f.digit == 0 && f.x == 1 ==> f.man < WORD32 / 2)
    && (f.digit == 0 && f.x == 2 ==> f.man < WORD32 / 4)
    && (f.digit == 0 && f.x == 3 ==> f.man < WORD32 / 8)
    && (f.x == 4 ==> f.digit == 1 && f.man + f.carry < 10 * ONE)
    && (f.digit == 1 ==> f.man <= 5 * FIFTH + 3)
  }

  lemma TameStep(f: Frac)
    requires Tame(f) && f.left > 0 && f.x < 4
    ensures Tame(FracStep(f)) && (f.man <= FIFTH && f.digit == 0 ==> f.man * 5 + 3 < WORD32)
  {
  }

  lemma {:induction false} TameRun(f: Frac)
    requires Tame(f)
    ensures Tame(FracRun(f)) && (FracRun(f).left > 0 ==> FracRun(f).x == 4)
    ensures f.left > 0 && f.x >= 0 ==> FracRun(f).left == f.left
    decreases 4 - f.x
  {
    if f.left > 0 && f.x < 4 {
      TameStep(f);
      TameRun(FracStep(f));
    }
  }

  method ScaleFraction(buffer: array<char>, start: Frac) returns (f: Frac)
    requires buffer.Length >= SIZE && start.left <= SIZE && Tame(start)
    modifies buffer
    ensures f == FracRun(start) && Tame(f) && f.left <= start.left
    ensures forall k :: f.left <= k < start.left ==> buffer[k] == '0'
    ensures forall k :: start.left <= k < buffer.Length ==> buffer[k] == old(buffer[k])
  {
    var man: nat, carry: nat, exp, digit: nat, dec: nat := start.man, start.carry, start.x, start.digit, start.left;
    while dec > 0 && exp < 4
      invariant dec <= start.left && Tame(Frac(man, carry, exp, digit, dec))
      invariant FracRun(start) == FracRun(Frac(man, carry, exp, digit, dec))
      invariant forall k :: dec <= k < start.left ==> buffer[k] == '0'
      invariant forall k :: start.left <= k < buffer.Length ==> buffer[k] == old(buffer[k])
      decreases 4 - exp
    {
      TameStep(Frac(man, carry, exp, digit, dec));
      if man > FIFTH || digit > 0 {
        carry := man % 2;
        man := man / 2;
      } else {
        man := Word32(man * 5);
        if carry > 0 {
          man := Word32(man + 3);
          carry := 0;
        }
        if exp < 0 {
          dec := dec - 1;
          buffer[dec] := '0';
        } else {
          digit := digit + 1;
        }
      }
      exp := exp + 1;
    }
    f := Frac(man, carry, exp, digit, dec);
  }

  /** `text` holds the first `n` digits of start / 2^28, backwards; `man` is what they leave, times 10. */
  ghost predicate Emitted(text: string, man: nat, start: nat, n: nat) {
    Value(Reversed(text), 10) * (10 * ONE) + man == start * Power(10, n)
  }

  /** The fraction's digits from place `count` down to the last one; `rest` is what they leave of 2^28. */
  method PutFractionDigits(buffer: array<char>, start: nat, count: nat) returns (rest: nat)
    requires buffer.Length >= SIZE && 0 < count <= SIZE && start < 10 * ONE
    modifies buffer
    ensures Plain(buffer[..count]) && rest < ONE
    ensures Value(Reversed(buffer[..count]), 10) == start * Power(10, count - 1) / 0x1000_0000
    ensures rest == start * Power(10, count - 1) % 0x1000_0000
    ensures forall k :: count <= k < buffer.Length ==> buffer[k] == old(buffer[k])
  {
    var man: nat := start;
    var dec := count;
    NothingEmitted(buffer[count..count], start);
    while true
      invariant 0 < dec <= count && man < 10 * ONE
      invariant Plain(buffer[dec..count]) && Emitted(buffer[dec..count], man, start, count - dec)
      invariant forall k :: count <= k < buffer.Length ==> buffer[k] == old(buffer[k])
      decreases dec
    {
      ghost var written := buffer[dec..count];
      dec := dec - 1;
      buffer[dec] := '0' + (man / 0x1000_0000) as char;
      assert buffer[dec..count] == [buffer[dec]] + written;
      NextFraction(written, buffer[dec], man, start, count - dec - 1);
      man := man % 0x1000_0000;
      if dec == 0 {
        break;
      }
      man := Word32(man * 10);
    }
    rest := man;
    assert buffer[0..count] == buffer[..count];
  }

  lemma NothingEmitted(text: string, start: nat)
    requires text == []
    ensures Emitted(text, start, start, 0)
  {
  }

  lemma NextFraction(written: string, c: char, man: nat, start: nat, n: nat)
    requires man < 10 * ONE && c == '0' + (man / 0x1000_0000) as char && Emitted(written, man, start, n)
    ensures Emitted([c] + written, man % 0x1000_0000 * 10, start, n + 1)
    ensures Value(Reversed([c] + written), 10) == start * Power(10, n) / 0x1000_0000
    ensures man % 0x1000_0000 == start * Power(10, n) % 0x1000_0000
  {
    var v, w, total := Value(Reversed(written), 10), Value(Reversed([c] + written), 10), start * Power(10, n);
    assert Reversed([c] + written) == Reversed(written) + [c];
    assert Worth(c) == man / 0x1000_0000;
    ValueAppend(Reversed(written), c, 10);
    DigitTaken(v, man, w, total);
    OneMorePlace(start, n);
  }

  lemma OneMorePlace(start: nat, n: nat)
    ensures start * Power(10, n + 1) == 10 * (start * Power(10, n))
  {
    TenTimes(start, Power(10, n));
  }

  lemma TenTimes(a: nat, p: nat)
    ensures a * (10 * p) == 10 * (a * p)
  {
  }

  lemma DigitTaken(v: nat, man: nat, w: nat, total: nat)
    requires v * (10 * ONE) + man == total && w == 10 * v + man / 0x1000_0000
    ensures w == total / 0x1000_0000 && man % 0x1000_0000 == total % 0x1000_0000
    ensures w * (10 * ONE) + man % 0x1000_0000 * 10 == 10 * total
  {
  }

  // ---------- the whole text ----------

  /** The fraction once scaled, in 4.28 fixed point; without places left it is in 0.32 instead. */
  function Fixed28(f: Frac): nat {
    Word32(f.man + f.carry)
  }

  /** The number the places left make before rounding. */
  function PlacesNumber(f: Frac): nat {
    if f.left == 0 then 0 else Fixed28(f) * Power(10, f.left - 1) / 0x1000_0000
  }

  /** Whether the last place is rounded up. */
  predicate PlacesUp(f: Frac) {
    && f.x >= 0
    && if f.left == 0 then Fixed28(f) >= TOP else Fixed28(f) * Power(10, f.left - 1) % 0x1000_0000 >= ONE / 2
  }

  function FractionNumber(bits: nat, prec: nat): nat {
    PlacesNumber(FracRun(FracStart(bits, prec)))
  }

  predicate RoundsUp(bits: nat, prec: nat) {
    PlacesUp(FracRun(FracStart(bits, prec)))
  }

  lemma ZerosAbove(low: string, zeros: nat, text: string)
    requires |text| == |low| + zeros && text[..|low|] == low && Plain(low)
    requires forall k :: |low| <= k < |text| ==> text[k] == '0'
    ensures Plain(text) && Value(Reversed(text), 10) == Value(Reversed(low), 10)
  {
    assert Reversed(text) == Repeat('0', zeros) + Reversed(low);
    LeadingZeros(zeros, Reversed(low), 10);
  }

  /** The places a scaled fraction leaves, and whether to round up. */
  method PutPlaces(buffer: array<char>, f: Frac) returns (carry: nat)
    requires buffer.Length >= SIZE && f.left <= 62 && Tame(f) && (f.left > 0 ==> f.x == 4)
    modifies buffer
    ensures Plain(buffer[..f.left]) && Value(Reversed(buffer[..f.left]), 10) == PlacesNumber(f)
    ensures carry == if PlacesUp(f) then 1 else 0
    ensures forall k :: f.left <= k < buffer.Length ==> buffer[k] == old(buffer[k])
  {
    var man := Word32(f.man + f.carry);
    carry := if f.x >= 0 then 1 else 0;
    if f.left > 0 {
      var rest := PutFractionDigits(buffer, man, f.left);
      man := Word32(rest * 16);
    } else {
      assert buffer[..0] == [] && Reversed(buffer[..0]) == [];
    }
    if man / TOP == 0 {
      carry := 0;
    }
  }

  /** The fraction's first 32 bits and the one after. */
  method StartFraction(m: nat, exp: int, prec: nat, ghost bits: nat) returns (start: Frac)
    requires m == Mantissa(bits) && exp == Exponent(bits) <= 31
    ensures start == FracStart(bits, prec) && Tame(start)
  {
    var shift := if exp < 0 then -1 else exp;
    var word := Wrap(m * Power(2, 12 + shift));
    start := Frac(word / 0x1_0000_0000, word / 0x8000_0000 % 2, exp - shift, 0, prec);
  }

  /** The fraction part, for exponents that leave one. */
  method PutFraction(buffer: array<char>, m: nat, exp: int, prec: nat, ghost bits: nat) returns (carry: nat)
    requires buffer.Length >= SIZE && prec <= 62 && m == Mantissa(bits) && exp == Exponent(bits) <= 31
    modifies buffer
    ensures Plain(buffer[..prec]) && Value(Reversed(buffer[..prec]), 10) == FractionNumber(bits, prec)
    ensures carry == if RoundsUp(bits, prec) then 1 else 0
    ensures forall k :: prec <= k < buffer.Length ==> buffer[k] == old(buffer[k])
  {
    var start := StartFraction(m, exp, prec, bits);
    var f := ScaleFraction(buffer, start);
    TameRun(start);
    carry := PutPlaces(buffer, f);
    ZerosAbove(buffer[..f.left], prec - f.left, buffer[..prec]);
  }

  /** The integer's 32 bits, and what is left to scale. */
  method StartInteger(m: nat, exp: int, ghost bits: nat) returns (start: Large)
    requires m == Mantissa(bits) && exp == Exponent(bits)
    ensures start == WholeStart(bits)
  {
    if exp < 0 {
      return Large(0, 0, 0, 0);
    }
    var shift := if exp > 31 then 31 else exp;
    var left := exp - shift;
    shift := 52 - shift;
    PowersOfTwo();
    PowerPositive(2, shift);
    var man := m / Power(2, shift);
    var carry := 0;
    if left > 0 {
      assert Power(2, 20) * 2 == Power(2, 21);
      carry := m / Power(2, shift - 1) % 2;
    }
    start := Large(man, carry, left, 0);
  }

  /** The integer part: its zeros, its digits, and a carry if it was scaled. */
  method PutInteger(buffer: array<char>, m: nat, exp: int, first: nat, ghost bits: nat)
    returns (ok: bool, carry: nat, dec: nat, end: nat, ghost numeral: string)
    requires buffer.Length >= SIZE && first <= SIZE - 1
    requires m == Mantissa(bits) && exp == Exponent(bits)
    modifies buffer
    ensures var r := LargeRun(WholeStart(bits));
            && (ok <==> first + r.zeros + DigitCount(r.man) <= SIZE)
            && (ok ==> carry == r.carry && dec == first + r.zeros && end == dec + DigitCount(r.man)
                       && Denotes(numeral, r.man)
                       && buffer[first..end] == Repeat('0', r.zeros) + Reversed(numeral))
    ensures forall k :: 0 <= k < first ==> buffer[k] == old(buffer[k])
  {
    var start := StartInteger(m, exp, bits);
    var man;
    ok, man, carry, dec := ScaleInteger(buffer, start, first);
    end, numeral := dec, [];
    if !ok {
      return;
    }
    ghost var zeros := buffer[first..dec];
    assert zeros == Repeat('0', dec - first);
    ok, end, numeral := PutNumber(buffer, man, dec);
    if ok {
      Joined(buffer, first, dec, end, zeros, Reversed(numeral));
    }
  }

  lemma AmountLow(low: string)
    requires Plain(low)
    ensures Amount(low) == Value(Reversed(low), 10) && Places(low) == |low|
  {
    var text := Reversed(low);
    ReversedTwice(low);
    PlainReversed(low, text);
    AmountReversed(text);
  }

  lemma PlainReversed(low: string, text: string)
    requires Plain(low) && text == Reversed(low)
    ensures AllDigits(text, 10)
  {
    assert forall c: char :: '0' <= c <= '9' ==> Worth(c) < 10;
  }

  lemma AmountHigh(zeros: nat, numeral: string)
    requires AllDigits(numeral, 10)
    ensures Amount(Repeat('0', zeros) + Reversed(numeral)) == Power(10, zeros) * Value(numeral, 10)
    ensures Places(Repeat('0', zeros)) == zeros
  {
    assert Reversed(Repeat('0', zeros)) == Repeat('0', zeros);
    AmountReversed(Repeat('0', zeros));
    ZerosValue(zeros, 10);
    AmountJoin(Repeat('0', zeros), Reversed(numeral));
    AmountReversed(numeral);
  }

  /** The digits laid out, before rounding. */
  lemma Composed(low: string, mark: string, zeros: nat, numeral: string, s: string)
    requires Plain(low) && (mark == [] || mark == ['.']) && AllDigits(numeral, 10)
    requires s == low + (mark + (Repeat('0', zeros) + Reversed(numeral)))
    ensures Amount(s) == Value(Reversed(low), 10) + Power(10, |low|) * (Power(10, zeros) * Value(numeral, 10))
  {
    var high := Repeat('0', zeros) + Reversed(numeral);
    AroundPoint(low, mark, high);
    AmountJoin(low, high);
    AmountLow(low);
    AmountHigh(zeros, numeral);
  }

  lemma PlacesBelow(low: string, mark: string, zeros: nat, s: string)
    requires Plain(low) && (mark == [] || mark == ['.']) && |low| + |mark| + zeros <= |s|
    requires s[..|low| + |mark| + zeros] == low + (mark + Repeat('0', zeros))
    ensures Places(s[..|low| + |mark| + zeros]) == |low| + zeros
  {
    AmountJoin(low, mark + Repeat('0', zeros));
    AmountJoin(mark, Repeat('0', zeros));
    AmountLow(low);
    AmountHigh(zeros, []);
  }

  predicate Pointed(prec: nat, alt: bool) {
    prec > 0 || alt
  }

  function Mark(prec: nat, alt: bool): string {
    if Pointed(prec, alt) then ['.'] else []
  }

  /** The printed number before rounding, counted in units of its last place. */
  function Unrounded(bits: nat, prec: nat): nat {
    var r := LargeRun(WholeStart(bits));
    (if Exponent(bits) <= 31 then FractionNumber(bits, prec) else 0)
    + Thrice(Power(10, prec), Power(10, r.zeros), r.man)
  }

  function Thrice(a: nat, b: nat, c: nat): nat {
    a * (b * c)
  }

  /** What rounding adds: one in the last place, or in the last place that was computed. */
  function Rounding(bits: nat, prec: nat): nat {
    var r := LargeRun(WholeStart(bits));
    if Exponent(bits) <= 31 then (if RoundsUp(bits, prec) then 1 else 0)
    else if r.carry == 0 then 0 else Power(10, prec + r.zeros)
  }

  /** How many digits the integer part has before rounding, its zeros not counted. */
  function WholeCount(bits: nat): nat {
    DigitCount(LargeRun(WholeStart(bits)).man)
  }

  function Zeros(bits: nat): nat {
    LargeRun(WholeStart(bits)).zeros
  }

  /** The text laid out as low + mark + zeros + digits. */
  lemma LaidOut(s: string, low: string, mark: string, zeros: nat, numeral: string)
    requires Plain(low) && AllDigits(numeral, 10) && (mark == [] || mark == ['.'])
    requires s == low + (mark + (Repeat('0', zeros) + Reversed(numeral)))
    ensures Amount(s) == Value(Reversed(low), 10) + Power(10, |low|) * (Power(10, zeros) * Value(numeral, 10))
    ensures Shape(s, |low|, mark == ['.'])
    ensures Scale(s[..|low| + |mark| + zeros]) == Power(10, |low| + zeros)
  {
    Composed(low, mark, zeros, numeral, s);
    var below := s[..|low| + |mark| + zeros];
    assert below == low + (mark + Repeat('0', zeros));
    PlacesBelow(low, mark, zeros, s);
    ShapeOf(low, mark, Repeat('0', zeros) + Reversed(numeral), s, |low|);
  }

  /** What the layout comes to, for a double's digits. */
  lemma LaidOutDouble(s: string, low: string, bits: nat, alt: bool, prec: nat, numeral: string)
    requires Plain(low) && |low| == prec && Denotes(numeral, LargeRun(WholeStart(bits)).man)
    requires Value(Reversed(low), 10) == if Exponent(bits) <= 31 then FractionNumber(bits, prec) else 0
    requires s == low + (Mark(prec, alt) + (Repeat('0', Zeros(bits)) + Reversed(numeral)))
    ensures Amount(s) == Unrounded(bits, prec) && Shape(s, prec, Pointed(prec, alt))
    ensures Scale(s[..prec + |Mark(prec, alt)| + Zeros(bits)]) == Power(10, prec + Zeros(bits))
  {
    LaidOut(s, low, Mark(prec, alt), Zeros(bits), numeral);
  }

  lemma DecimalDigits(c: char)
    requires Worth(c) < 10
    ensures '0' <= c <= '9'
  {
  }

  lemma ShapeOf(low: string, mark: string, high: string, s: string, prec: nat)
    requires Plain(low) && |low| == prec && AllDigits(high, 10) && (mark == [] || mark == ['.'])
    requires s == low + (mark + high)
    ensures Shape(s, prec, mark == ['.'])
  {
    forall i | 0 <= i < |s| && !(mark == ['.'] && i == prec) ensures '0' <= s[i] <= '9' {
      if i >= prec {
        assert s[i] == high[i - prec - |mark|];
        DecimalDigits(s[i]);
      }
    }
  }

  method PutMark(buffer: array<char>, prec: nat, alt: bool) returns (first: nat)
    requires buffer.Length >= SIZE && prec <= 62
    modifies buffer
    ensures first == prec + |Mark(prec, alt)| && buffer[prec..first] == Mark(prec, alt)
  {
    first := prec;
    if prec > 0 || alt {
      buffer[first] := '.';
      first := first + 1;
    }
  }

  /** The point and the integer part. */
  method PutAbove(buffer: array<char>, m: nat, exp: int, prec: nat, alt: bool, ghost bits: nat)
    returns (ok: bool, carry: nat, dec: nat, end: nat, ghost numeral: string)
    requires buffer.Length >= SIZE && prec <= 62 && m == Mantissa(bits) && exp == Exponent(bits)
    modifies buffer
    ensures ok <==> prec + |Mark(prec, alt)| + Zeros(bits) + WholeCount(bits) <= SIZE
    ensures ok ==> dec == prec + |Mark(prec, alt)| + Zeros(bits) && end == dec + WholeCount(bits)
    ensures ok ==> carry == LargeRun(WholeStart(bits)).carry && Denotes(numeral, LargeRun(WholeStart(bits)).man)
    ensures ok ==> buffer[prec..end] == Mark(prec, alt) + (Repeat('0', Zeros(bits)) + Reversed(numeral))
  {
    var first := PutMark(buffer, prec, alt);
    ghost var marked := buffer[prec..first];
    ok, carry, dec, end, numeral := PutInteger(buffer, m, exp, first, bits);
    if ok {
      Joined(buffer, prec, first, end, marked, Repeat('0', Zeros(bits)) + Reversed(numeral));
    }
  }

  lemma Joined(buffer: array<char>, a: nat, b: nat, c: nat, low: string, high: string)
    requires a <= b <= c <= buffer.Length && b - a == |low| && buffer[b..c] == high
    requires forall k :: a <= k < b ==> buffer[k] == low[k - a]
    ensures buffer[a..c] == low + high
  {
    assert buffer[a..b] == low;
    assert buffer[a..c] == buffer[a..b] + buffer[b..c];
  }

  /** The places below the point: the fraction, or zeros for a number that has none left. */
  method PutBelow(buffer: array<char>, m: nat, exp: int, prec: nat, carryIn: nat, decIn: nat, ghost end: nat,
                  ghost bits: nat)
    returns (carry: nat, dec: nat)
    requires buffer.Length >= SIZE && prec <= 62 && m == Mantissa(bits) && exp == Exponent(bits)
    requires prec <= end <= buffer.Length
    modifies buffer
    ensures Plain(buffer[..prec])
    ensures Value(Reversed(buffer[..prec]), 10) == if Exponent(bits) <= 31 then FractionNumber(bits, prec) else 0
    ensures if exp <= 31 then dec == 0 && carry == (if RoundsUp(bits, prec) then 1 else 0)
            else carry == carryIn && dec == decIn
    ensures buffer[..end] == buffer[..prec] + old(buffer[prec..end])
  {
    carry, dec := carryIn, decIn;
    if exp <= 31 {
      carry := PutFraction(buffer, m, exp, prec, bits);
      dec := 0;
    } else if prec > 0 {
      var rest := PutFractionDigits(buffer, 0, prec);
    } else {
      assert buffer[..0] == [] && Reversed(buffer[..0]) == [];
    }
  }

  /** The two parts put together, and what rounding them will add. */
  lemma Together(s: string, low: string, above: string, bits: nat, alt: bool, prec: nat, numeral: string,
                 carry: nat, dec: nat)
    requires Plain(low) && |low| == prec && Denotes(numeral, LargeRun(WholeStart(bits)).man) && s == low + above
    requires above == Mark(prec, alt) + (Repeat('0', Zeros(bits)) + Reversed(numeral))
    requires Value(Reversed(low), 10) == if Exponent(bits) <= 31 then FractionNumber(bits, prec) else 0
    requires if Exponent(bits) <= 31 then dec == 0 && carry == (if RoundsUp(bits, prec) then 1 else 0)
             else carry == LargeRun(WholeStart(bits)).carry && dec == prec + |Mark(prec, alt)| + Zeros(bits)
    ensures Amount(s) == Unrounded(bits, prec) && Shape(s, prec, Pointed(prec, alt))
    ensures dec <= |s| && carry <= 1 && (if carry == 0 then 0 else Scale(s[..dec])) == Rounding(bits, prec)
  {
    LaidOutDouble(s, low, bits, alt, prec, numeral);
    RoundingAt(s, bits, prec, prec + |Mark(prec, alt)| + Zeros(bits), carry, dec);
  }

  lemma RoundingAt(s: string, bits: nat, prec: nat, above: nat, carry: nat, dec: nat)
    requires above <= |s| && Scale(s[..above]) == Power(10, prec + Zeros(bits))
    requires if Exponent(bits) <= 31 then dec == 0 && carry == (if RoundsUp(bits, prec) then 1 else 0)
             else carry == LargeRun(WholeStart(bits)).carry && dec == above
    ensures dec <= |s| && carry <= 1 && (if carry == 0 then 0 else Scale(s[..dec])) == Rounding(bits, prec)
  {
  }

  /** A backward text whose digits from `first` on start with 0 for a single 0 alone. */
  predicate NoLeadingZero(s: string, first: nat) {
    |s| > first && (s[|s| - 1] == '0' ==> |s| == first + 1)
  }

  lemma {:induction false} LargePositive(s: Large)
    requires s.man > 0
    ensures LargeRun(s).man > 0
    decreases s.left
  {
    if s.left > 0 {
      LargePositive(LargeStep(s));
    }
  }

  lemma ZeroAlone(bits: nat)
    ensures LargeRun(WholeStart(bits)).man == 0 ==> Zeros(bits) == 0 && WholeCount(bits) == 1
  {
    if Exponent(bits) > 31 {
      assert Mantissa(bits) >= 0x10_0000_0000_0000;
      LargePositive(WholeStart(bits));
    }
  }

  lemma LeadOf(s: string, low: string, above: string, bits: nat, alt: bool, prec: nat, numeral: string)
    requires |low| == prec && Denotes(numeral, LargeRun(WholeStart(bits)).man) && s == low + above
    requires above == Mark(prec, alt) + (Repeat('0', Zeros(bits)) + Reversed(numeral))
    ensures NoLeadingZero(s, prec + |Mark(prec, alt)|)
  {
    ZeroAlone(bits);
    assert s[|s| - 1] == Reversed(numeral)[|numeral| - 1] == numeral[0];
  }

  /** Everything but the rounding. */
  method Compose(buffer: array<char>, m: nat, exp: int, prec: nat, alt: bool, ghost bits: nat)
    returns (ok: bool, carry: nat, dec: nat, end: nat)
    requires buffer.Length >= SIZE && prec <= 62 && m == Mantissa(bits) && exp == Exponent(bits)
    modifies buffer
    ensures ok <==> prec + |Mark(prec, alt)| + Zeros(bits) + WholeCount(bits) <= SIZE
    ensures ok ==> end == prec + |Mark(prec, alt)| + Zeros(bits) + WholeCount(bits) && dec <= end && carry <= 1
    ensures ok ==> Shape(buffer[..end], prec, Pointed(prec, alt)) && Amount(buffer[..end]) == Unrounded(bits, prec)
    ensures ok ==> (if carry == 0 then 0 else Scale(buffer[..end][..dec])) == Rounding(bits, prec)
    ensures ok ==> NoLeadingZero(buffer[..end], prec + |Mark(prec, alt)|)
  {
    ghost var numeral;
    ok, carry, dec, end, numeral := PutAbove(buffer, m, exp, prec, alt, bits);
    if !ok {
      return;
    }
    ghost var above := buffer[prec..end];
    carry, dec := PutBelow(buffer, m, exp, prec, carry, dec, end, bits);
    Together(buffer[..end], buffer[..prec], above, bits, alt, prec, numeral, carry, dec);
    LeadOf(buffer[..end], buffer[..prec], above, bits, alt, prec, numeral);
  }

  /** A finite double's text, or not `ok` where it does not fit. */
  method PutFinite(buffer: array<char>, m: nat, exp: int, prec: nat, alt: bool, ghost bits: nat)
    returns (ok: bool, end: nat)
    requires buffer.Length >= SIZE && prec <= 62 && m == Mantissa(bits) && exp == Exponent(bits)
    modifies buffer
    ensures prec + |Mark(prec, alt)| + Zeros(bits) + WholeCount(bits) < SIZE ==> ok
    ensures ok ==> prec + |Mark(prec, alt)| + Zeros(bits) + WholeCount(bits) <= end <= SIZE
    ensures ok ==> Shape(buffer[..end], prec, Pointed(prec, alt))
    ensures ok ==> Amount(buffer[..end]) == Unrounded(bits, prec) + Rounding(bits, prec)
    ensures ok ==> NoLeadingZero(buffer[..end], prec + |Mark(prec, alt)|)
  {
    var carry, dec;
    ok, carry, dec, end := Compose(buffer, m, exp, prec, alt, bits);
    if !ok {
      return;
    }
    assert buffer[..end][end - 1] == buffer[end - 1];
    ok, end := Round(buffer, prec, Pointed(prec, alt), dec, end, carry);
    assert ok ==> buffer[..end][end - 1] == buffer[end - 1];
  }

  function Cased(text: string, upper: bool): string {
    if upper then text else Lower(text)
  }

  /** The letters with `case_adjust` added. */
  function Lower(text: string): (s: string)
    ensures |s| == |text|
  {
    seq(|text|, i requires 0 <= i < |text| => if 'A' <= text[i] <= 'Z' then text[i] + 32 as char else text[i])
  }

  /** What is printed, backwards, instead of a number. */
  function Message(bits: nat): string {
    if Finite(bits) then "RRE" else if FractionField(bits) != 0 then "NAN" else "FNI"
  }

  method PutMessage(buffer: array<char>, text: string, upper: bool) returns (length: int)
    requires buffer.Length >= SIZE && |text| == 3
    requires forall i :: 0 <= i < |text| ==> 'A' <= text[i] <= 'Z'
    modifies buffer
    ensures length == -3 && buffer[..3] == Cased(text, upper)
  {
    for i := 0 to 3
      invariant forall k :: 0 <= k < i ==> buffer[k] == Cased(text, upper)[k]
    {
      buffer[i] := if upper then text[i] else text[i] + 32 as char;
    }
    length := -3;
  }

  /** `npf_ftoa_rev`: the text's length, or -3 with a message in place of a number. */
  method Ftoa(buffer: array<char>, prec: nat, alt: bool, upper: bool, bits: nat) returns (length: int)
    requires buffer.Length >= SIZE
    modifies buffer
    ensures length == -3 || 0 < length <= SIZE
    ensures length < 0 ==> buffer[..3] == Cased(Message(bits), upper)
    ensures length > 0 ==> Finite(bits) && prec <= SIZE - 2
    ensures (Finite(bits) && prec <= SIZE - 2 && prec + |Mark(prec, alt)| + Zeros(bits) + WholeCount(bits) < SIZE)
            ==> length > 0
    ensures length > 0 ==> length >= prec + |Mark(prec, alt)| + Zeros(bits) + WholeCount(bits)
    ensures length > 0 ==> Shape(buffer[..length], prec, Pointed(prec, alt))
    ensures length > 0 ==> Amount(buffer[..length]) == Unrounded(bits, prec) + Rounding(bits, prec)
    ensures length > 0 ==> NoLeadingZero(buffer[..length], prec + |Mark(prec, alt)|)
  {
    var exp: int := bits / HIDDEN % 2048;
    var bin := bits % HIDDEN;
    if exp == 2047 {
      length := PutMessage(buffer, if bin != 0 then "NAN" else "FNI", upper);
      return;
    }
    if prec > SIZE - 2 {
      length := PutMessage(buffer, "RRE", upper);
      return;
    }
    if exp != 0 {
      bin := bin + HIDDEN;
    } else {
      exp := exp + 1;
    }
    exp := exp - BIAS;
    var ok, end := PutFinite(buffer, bin, exp, prec, alt, bits);
    if ok {
      length := end;
    } else {
      length := PutMessage(buffer, "RRE", upper);
    }
  }
}
